/** Canonical DNS name order (section 6.1 of RFC 4034; core/src/dns/dnssec_denial.cpp).

    A name is its sequence of labels, root first, so that the ancestors of a name are its prefixes and
    the comparison from the root towards the leaf is a comparison from the front. */
module NsecOrder {

  type Label = seq<nat>

  type Name = seq<Label>

  /** ASCII upper case is folded to lower case. */
  function Folded(octet: nat): nat {
    if 'A' as nat <= octet <= 'Z' as nat then octet + ('a' as nat - 'A' as nat) else octet
  }

  /** Octet by octet, and a label that is a prefix of the other first. */
  function CompareLabel(l: Label, r: Label): (order: int)
    ensures -1 <= order <= 1
  {
    if l == [] || r == [] then (if l == r then 0 else if l == [] then -1 else 1)
    else if Folded(l[0]) < Folded(r[0]) then -1
    else if Folded(l[0]) > Folded(r[0]) then 1
    else CompareLabel(l[1..], r[1..])
  }

  /** Label by label from the root, and an ancestor first. */
  function Compare(a: Name, b: Name): (order: int)
    ensures -1 <= order <= 1
  {
    if a == [] || b == [] then (if a == b then 0 else if a == [] then -1 else 1)
    else if CompareLabel(a[0], b[0]) != 0 then CompareLabel(a[0], b[0])
    else Compare(a[1..], b[1..])
  }

  predicate SameLabel(l: Label, r: Label) {
    |l| == |r| && forall i :: 0 <= i < |l| ==> Folded(l[i]) == Folded(r[i])
  }

  /** Equal up to ASCII case. */
  predicate Same(a: Name, b: Name) {
    |a| == |b| && forall i :: 0 <= i < |a| ==> SameLabel(a[i], b[i])
  }

  lemma {:induction false} LabelOrderEqual(l: Label, r: Label)
    ensures CompareLabel(l, r) == 0 <==> SameLabel(l, r)
    decreases |l|
  {
    if l != [] && r != [] {
      LabelOrderEqual(l[1..], r[1..]);
      if SameLabel(l[1..], r[1..]) && Folded(l[0]) == Folded(r[0]) {
        assert forall i :: 0 < i < |l| ==> l[i] == l[1..][i - 1] && r[i] == r[1..][i - 1];
      }
    }
  }

  lemma {:induction false} LabelOrderAntisymmetric(l: Label, r: Label)
    ensures CompareLabel(l, r) == -CompareLabel(r, l)
    decreases |l|
  {
    if l != [] && r != [] {
      LabelOrderAntisymmetric(l[1..], r[1..]);
    }
  }

  lemma {:induction false} LabelOrderTransitive(l: Label, m: Label, r: Label)
    requires CompareLabel(l, m) <= 0 && CompareLabel(m, r) <= 0
    ensures CompareLabel(l, r) <= 0
    ensures CompareLabel(l, r) == 0 ==> CompareLabel(l, m) == 0 && CompareLabel(m, r) == 0
    decreases |l|
  {
    if l != [] && m != [] && r != [] && Folded(l[0]) == Folded(m[0]) == Folded(r[0]) {
      LabelOrderTransitive(l[1..], m[1..], r[1..]);
    }
  }

  /** The comparison vanishes exactly for names equal up to case. */
  lemma {:induction false} OrderEqual(a: Name, b: Name)
    ensures Compare(a, b) == 0 <==> Same(a, b)
    decreases |a|
  {
    if a != [] && b != [] {
      hide SameLabel, CompareLabel;
      LabelOrderEqual(a[0], b[0]);
      OrderEqual(a[1..], b[1..]);
      if Same(a[1..], b[1..]) && SameLabel(a[0], b[0]) {
        assert forall i :: 0 < i < |a| ==> a[i] == a[1..][i - 1] && b[i] == b[1..][i - 1];
      }
    }
  }

  lemma {:induction false} OrderAntisymmetric(a: Name, b: Name)
    ensures Compare(a, b) == -Compare(b, a)
    decreases |a|
  {
    if a != [] && b != [] {
      hide CompareLabel;
      LabelOrderAntisymmetric(a[0], b[0]);
      OrderAntisymmetric(a[1..], b[1..]);
    }
  }

  lemma {:induction false} OrderTransitive(a: Name, b: Name, c: Name)
    requires Compare(a, b) <= 0 && Compare(b, c) <= 0
    ensures Compare(a, c) <= 0
    ensures Compare(a, c) == 0 ==> Compare(a, b) == 0 && Compare(b, c) == 0
    decreases |a|
  {
    if a != [] && b != [] && c != [] {
      hide CompareLabel;
      LabelOrderTransitive(a[0], b[0], c[0]);
      LabelSquare(a[0], b[0], c[0]);
      if CompareLabel(a[0], b[0]) == 0 && CompareLabel(b[0], c[0]) == 0 {
        OrderTransitive(a[1..], b[1..], c[1..]);
      }
    }
  }

  lemma LabelSquare(a: Label, b: Label, c: Label)
    ensures CompareLabel(a, b) == 0 && CompareLabel(b, c) == 0 ==> CompareLabel(a, c) == 0
  {
    LabelOrderEqual(a, b);
    LabelOrderEqual(b, c);
    LabelOrderEqual(a, c);
  }

  /** All three laws at once: a total preorder whose equivalence is equality up to case. */
  lemma TotalOrder(a: Name, b: Name, c: Name)
    ensures Compare(a, b) == 0 <==> Same(a, b)
    ensures Compare(a, b) == -Compare(b, a)
    ensures Compare(a, b) <= 0 && Compare(b, c) <= 0 ==> Compare(a, c) <= 0
    ensures Compare(a, b) <= 0 && Compare(b, c) <= 0 && Compare(a, c) == 0 ==> Compare(a, b) == 0 && Compare(b, c) == 0
    ensures Same(a, b) ==> Compare(a, c) == Compare(b, c)
  {
    hide Compare;
    OrderEqual(a, b);
    OrderAntisymmetric(a, b);
    OrderAntisymmetric(b, c);
    OrderAntisymmetric(a, c);
    if Compare(a, b) <= 0 && Compare(b, c) <= 0 {
      OrderTransitive(a, b, c);
    }
    if Compare(a, b) == 0 {
      OrderEqual(a, c);
      OrderEqual(b, c);
      if Compare(a, c) <= 0 {
        OrderTransitive(b, a, c);
      } else {
        OrderTransitive(c, a, b);
      }
    }
  }

  // ---------------------------------------------------------------- the canonical order

  const UPPER: string := "ABCDEFGHIJKLMNOPQRSTUVWXYZ"
  const LOWER: string := "abcdefghijklmnopqrstuvwxyz"

  /** Folding exchanges the capital letters for the small ones and keeps every other octet. */
  lemma FoldedIsLowerCase(octet: nat)
    ensures forall i :: 0 <= i < 26 ==> Folded(UPPER[i] as nat) == LOWER[i] as nat
    ensures (forall i :: 0 <= i < 26 ==> octet != UPPER[i] as nat) ==> Folded(octet) == octet
  {
    if 65 <= octet <= 90 {
      assert octet == UPPER[octet - 65] as nat;
    }
  }

  /** `l` is a proper prefix of `r` up to case, or smaller at the first octet that differs. */
  ghost predicate LabelPrecedes(l: Label, r: Label) {
    || (|l| < |r| && SameLabel(l, r[..|l|]))
    || (exists k :: 0 <= k < |l| && k < |r| && SameLabel(l[..k], r[..k]) && Folded(l[k]) < Folded(r[k]))
  }

  /** `a` is a proper ancestor of `b` up to case, or its label is smaller at the first that differs. */
  ghost predicate Precedes(a: Name, b: Name) {
    || (|a| < |b| && Same(a, b[..|a|]))
    || (exists k :: 0 <= k < |a| && k < |b| && Same(a[..k], b[..k]) && LabelPrecedes(a[k], b[k]))
  }

  lemma LabelPrecedesTail(l: Label, r: Label)
    requires l != [] && r != [] && Folded(l[0]) == Folded(r[0])
    ensures LabelPrecedes(l, r) <==> LabelPrecedes(l[1..], r[1..])
  {
    forall k | 0 <= k < |l| && k < |r|
      ensures SameLabel(l[..k + 1], r[..k + 1]) <==> SameLabel(l[1..][..k], r[1..][..k])
    {
      SameLabelTail(l[..k + 1], r[..k + 1]);
      assert l[..k + 1][1..] == l[1..][..k] && r[..k + 1][1..] == r[1..][..k];
    }
    if |l| < |r| {
      SameLabelTail(l, r[..|l|]);
      assert r[..|l|][1..] == r[1..][..|l| - 1];
    }
    hide SameLabel, Folded;
    if k :| 0 <= k < |l| && k < |r| && SameLabel(l[..k], r[..k]) && Folded(l[k]) < Folded(r[k]) {
      assert k > 0;
      assert SameLabel(l[..(k - 1) + 1], r[..(k - 1) + 1]);
      assert l[1..][k - 1] == l[k] && r[1..][k - 1] == r[k];
    }
    if k :| 0 <= k < |l[1..]| && k < |r[1..]| && SameLabel(l[1..][..k], r[1..][..k]) && Folded(l[1..][k]) < Folded(r[1..][k]) {
      assert SameLabel(l[..k + 1], r[..k + 1]);
      assert l[1..][k] == l[k + 1] && r[1..][k] == r[k + 1];
    }
  }

  lemma SameLabelTail(l: Label, r: Label)
    requires l != [] && r != [] && Folded(l[0]) == Folded(r[0])
    ensures SameLabel(l, r) <==> SameLabel(l[1..], r[1..])
  {
    if SameLabel(l[1..], r[1..]) {
      assert forall i :: 0 < i < |l| ==> l[i] == l[1..][i - 1] && r[i] == r[1..][i - 1];
    }
  }

  lemma {:induction false} LabelFirstDifference(l: Label, r: Label)
    ensures CompareLabel(l, r) < 0 <==> LabelPrecedes(l, r)
    decreases |l|
  {
    if l == [] {
      assert |r| > 0 ==> r[..0] == [];
    } else if r != [] {
      if Folded(l[0]) == Folded(r[0]) {
        LabelFirstDifference(l[1..], r[1..]);
        LabelPrecedesTail(l, r);
      } else {
        assert l[..0] == [] && r[..0] == [] && SameLabel([], []);
      }
    }
  }

  lemma SameTail(a: Name, b: Name)
    requires a != [] && b != [] && SameLabel(a[0], b[0])
    ensures Same(a, b) <==> Same(a[1..], b[1..])
  {
    hide SameLabel;
    if Same(a[1..], b[1..]) {
      assert forall i :: 0 < i < |a| ==> a[i] == a[1..][i - 1] && b[i] == b[1..][i - 1];
    }
  }

  lemma PrecedesTail(a: Name, b: Name)
    requires a != [] && b != [] && SameLabel(a[0], b[0])
    ensures Precedes(a, b) <==> Precedes(a[1..], b[1..])
  {
    LabelFirstDifference(a[0], b[0]);
    LabelOrderEqual(a[0], b[0]);
    hide SameLabel, LabelPrecedes, CompareLabel;
    forall k | 0 <= k < |a| && k < |b|
      ensures Same(a[..k + 1], b[..k + 1]) <==> Same(a[1..][..k], b[1..][..k])
    {
      SameTail(a[..k + 1], b[..k + 1]);
      assert a[..k + 1][1..] == a[1..][..k] && b[..k + 1][1..] == b[1..][..k];
    }
    if |a| < |b| {
      SameTail(a, b[..|a|]);
      assert b[..|a|][1..] == b[1..][..|a| - 1];
    }
    hide Same;
    if k :| 0 <= k < |a| && k < |b| && Same(a[..k], b[..k]) && LabelPrecedes(a[k], b[k]) {
      assert k > 0;
      assert Same(a[..(k - 1) + 1], b[..(k - 1) + 1]);
      assert a[1..][k - 1] == a[k] && b[1..][k - 1] == b[k];
    }
    if k :| 0 <= k < |a[1..]| && k < |b[1..]| && Same(a[1..][..k], b[1..][..k]) && LabelPrecedes(a[1..][k], b[1..][k]) {
      assert Same(a[..k + 1], b[..k + 1]);
      assert a[1..][k] == a[k + 1] && b[1..][k] == b[k + 1];
    }
  }

  /** A name comes before another exactly when it is a proper ancestor of it, or at the first label where
      they differ its label does, which is the same of labels and their octets in small letters. */
  lemma {:induction false} FirstDifference(a: Name, b: Name)
    ensures Compare(a, b) < 0 <==> Precedes(a, b)
    decreases |a|
  {
    if a == [] {
      assert |b| > 0 ==> b[..0] == [];
    } else if b != [] {
      LabelFirstDifference(a[0], b[0]);
      LabelOrderEqual(a[0], b[0]);
      if SameLabel(a[0], b[0]) {
        hide SameLabel, LabelPrecedes, CompareLabel, Precedes;
        FirstDifference(a[1..], b[1..]);
        PrecedesTail(a, b);
      } else {
        hide SameLabel, LabelPrecedes, CompareLabel;
        assert a[..0] == [] && b[..0] == [] && Same([], []);
      }
    }
  }

  /** An ancestor comes strictly before every name below it. */
  lemma AncestorsFirst(n: Name, ancestor: Name)
    requires |ancestor| < |n| && Same(n[..|ancestor|], ancestor)
    ensures Compare(ancestor, n) < 0 && Compare(n, ancestor) > 0
  {
    hide Compare, SameLabel;
    SameReversed(n[..|ancestor|], ancestor);
    FirstDifference(ancestor, n);
    OrderAntisymmetric(ancestor, n);
  }

  lemma SameReversed(a: Name, b: Name)
    requires Same(a, b)
    ensures Same(b, a)
  {
    OrderEqual(a, b);
    OrderAntisymmetric(a, b);
    OrderEqual(b, a);
  }

  /** The names below one name are consecutive: nothing else comes between two of them. */
  lemma {:induction false} SubtreeIsConsecutive(x: Name, a: Name, b: Name, c: Name)
    requires |x| <= |a| && Same(a[..|x|], x) && |x| <= |c| && Same(c[..|x|], x)
    requires Compare(a, b) < 0 && Compare(b, c) < 0
    ensures |x| <= |b| && Same(b[..|x|], x)
    decreases |x|
  {
    if x != [] {
      assert b != [] && a[..|x|][0] == a[0] && c[..|x|][0] == c[0];
      Between(a[0], b[0], c[0], x[0]);
      SameTail(a[..|x|], x);
      SameTail(c[..|x|], x);
      assert a[..|x|][1..] == a[1..][..|x| - 1] && c[..|x|][1..] == c[1..][..|x| - 1];
      hide SameLabel, CompareLabel;
      SubtreeIsConsecutive(x[1..], a[1..], b[1..], c[1..]);
      assert b[..|x|][1..] == b[1..][..|x| - 1];
      SameTail(b[..|x|], x);
    }
  }

  lemma Between(a: Label, b: Label, c: Label, x: Label)
    requires SameLabel(a, x) && SameLabel(c, x) && CompareLabel(a, b) <= 0 && CompareLabel(b, c) <= 0
    ensures SameLabel(b, x) && CompareLabel(a, b) == 0 && CompareLabel(b, c) == 0
  {
    LabelOrderEqual(a, c);
    assert SameLabel(a, c);
    LabelOrderTransitive(a, b, c);
    LabelOrderEqual(b, c);
  }
}
