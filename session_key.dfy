/**
 * Connection identities and the session key of index.js: the key of a pair
 * is the larger id (in JavaScript string order), an underscore, and the
 * smaller one.
 */
module SessionKeys {

  /** A socket id. Socket ids are never empty, so an id stored in `isfriend`
      is always truthy. */
  type Id = s: string | s != [] witness "?"

  /** JavaScript's `a < b` on strings: lexicographic order on the characters,
      a proper prefix coming first. */
  predicate Less(a: string, b: string)
  {
    if a == [] then b != []
    else if b == [] then false
    else a[0] < b[0] || (a[0] == b[0] && Less(a[1..], b[1..]))
  }

  lemma {:induction false} LessIrreflexive(a: string)
    ensures !Less(a, a)
  {
    if a != [] {
      LessIrreflexive(a[1..]);
    }
  }

  lemma {:induction false} LessAsymmetric(a: string, b: string)
    requires Less(a, b)
    ensures !Less(b, a)
  {
    if a != [] && b != [] && a[0] == b[0] {
      LessAsymmetric(a[1..], b[1..]);
    }
  }

  lemma {:induction false} LessTransitive(a: string, b: string, c: string)
    requires Less(a, b) && Less(b, c)
    ensures Less(a, c)
  {
    if a != [] && b != [] && c != [] && a[0] == b[0] && b[0] == c[0] {
      LessTransitive(a[1..], b[1..], c[1..]);
    }
  }

  /** Any two strings are ordered one way or the other, or are equal. */
  lemma {:induction false} LessTrichotomy(a: string, b: string)
    ensures Less(a, b) || a == b || Less(b, a)
  {
    if a != [] && b != [] && a[0] == b[0] {
      LessTrichotomy(a[1..], b[1..]);
      assert a == [a[0]] + a[1..] && b == [b[0]] + b[1..];
    }
  }

  /** The key of the session between the socket `self` and its partner
      `other`: the larger id, an underscore, the smaller id. */
  function SessionKey(self: Id, other: Id): (key: string)
    ensures key == self + "_" + other || key == other + "_" + self
  {
    if Less(self, other) then other + "_" + self else self + "_" + other
  }

  /** Both players of a pair compute the same key, and it starts with the
      larger of the two ids whichever of them computes it. */
  lemma KeySymmetric(a: Id, b: Id)
    ensures SessionKey(a, b) == SessionKey(b, a)
    ensures Less(b, a) ==> SessionKey(a, b) == a + "_" + b
    ensures Less(a, b) ==> SessionKey(a, b) == b + "_" + a
  {
    LessTrichotomy(a, b);
    if Less(a, b) {
      LessAsymmetric(a, b);
    } else if Less(b, a) {
      LessAsymmetric(b, a);
    }
  }

  /** The position of the first underscore in `s`, or |s| if there is none. */
  function SeparatorAt(s: string): (i: nat)
    ensures i <= |s|
  {
    if s == [] || s[0] == '_' then 0 else 1 + SeparatorAt(s[1..])
  }

  lemma {:induction false} SeparatorAfterId(x: string, y: string)
    requires '_' !in x
    ensures SeparatorAt(x + "_" + y) == |x|
  {
    if x != [] {
      assert (x + "_" + y)[1..] == x[1..] + "_" + y;
      SeparatorAfterId(x[1..], y);
    }
  }

  lemma SplitAtSeparator(x: string, y: string, u: string, v: string)
    requires '_' !in x && '_' !in u
    requires x + "_" + y == u + "_" + v
    ensures x == u && y == v
  {
    SeparatorAfterId(x, y);
    SeparatorAfterId(u, v);
    var s := x + "_" + y;
    assert x == s[..|x|] && y == s[|x| + 1..];
    assert u == s[..|u|] && v == s[|u| + 1..];
  }

  /** When no id contains an underscore, a key names exactly one pair. */
  lemma KeyInjective(a: Id, b: Id, c: Id, d: Id)
    requires '_' !in a && '_' !in b && '_' !in c && '_' !in d
    requires SessionKey(a, b) == SessionKey(c, d)
    ensures (a == c && b == d) || (a == d && b == c)
  {
    var (h1, l1) := if Less(a, b) then (b, a) else (a, b);
    var (h2, l2) := if Less(c, d) then (d, c) else (c, d);
    SplitAtSeparator(h1, l1, h2, l2);
  }

  /** Ids may contain underscores, and then two different pairs can share a
      key: {"z_m", "a"} and {"z", "m_a"} both map to "z_m_a". */
  lemma KeyCollision()
    ensures SessionKey("z_m", "a") == SessionKey("z", "m_a") == "z_m_a"
  {
  }
}
