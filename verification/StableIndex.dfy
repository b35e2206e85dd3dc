/** Text order, ordered sets of texts, and stably sorted indices of the shown elements of a list:
    what tools/rcdiscover-gui/device_list.cc relies on. */
module StableIndex {

  /** std::string::compare is negative. */
  predicate Less(a: string, b: string)
    decreases |a|
  {
    b != [] && (a == [] || a[0] < b[0] || (a[0] == b[0] && Less(a[1..], b[1..])))
  }

  /** The texts agree on `n` characters, and then `a` ends, or has the smaller character. */
  predicate LessAt(a: string, b: string, n: nat) {
    n <= |a| && n < |b| && a[..n] == b[..n] && (n == |a| || a[n] < b[n])
  }

  lemma {:induction false} LessAtNext(a: string, b: string, n: nat)
    requires a != [] && b != [] && a[0] == b[0]
    ensures LessAt(a, b, n + 1) <==> LessAt(a[1..], b[1..], n)
  {
    if n + 1 <= |a| && n + 1 <= |b| {
      assert a[..n + 1] == [a[0]] + a[1..][..n] && b[..n + 1] == [b[0]] + b[1..][..n];
    }
  }

  lemma {:induction false} LessIsAt(a: string, b: string) returns (n: nat)
    requires Less(a, b)
    ensures LessAt(a, b, n)
    decreases |a|
  {
    n := 0;
    if a != [] && a[0] == b[0] {
      n := LessIsAt(a[1..], b[1..]);
      LessAtNext(a, b, n);
      n := n + 1;
    }
  }

  lemma {:induction false} LessAtIsLess(a: string, b: string, n: nat)
    requires LessAt(a, b, n)
    ensures Less(a, b)
    decreases n
  {
    if n > 0 {
      assert a[..n][0] == a[0] && b[..n][0] == b[0];
      LessAtNext(a, b, n - 1);
      LessAtIsLess(a[1..], b[1..], n - 1);
    }
  }

  lemma {:induction false} LessInLetters(a: string, b: string)
    ensures Less(a, b) <==> exists n: nat :: LessAt(a, b, n)
  {
    hide Less, LessAt;
    if Less(a, b) {
      var n := LessIsAt(a, b);
    }
    if n: nat :| LessAt(a, b, n) {
      LessAtIsLess(a, b, n);
    }
  }

  lemma {:induction false} LessAsymmetric(a: string, b: string)
    requires Less(a, b)
    ensures !Less(b, a) && a != b
    decreases |a|
  {
    if a != [] && a[0] == b[0] {
      LessAsymmetric(a[1..], b[1..]);
    }
  }

  lemma {:induction false} LessTotal(a: string, b: string)
    ensures Less(a, b) || a == b || Less(b, a)
    decreases |a|
  {
    if a != [] && b != [] && a[0] == b[0] {
      LessTotal(a[1..], b[1..]);
      assert a == [a[0]] + a[1..] && b == [b[0]] + b[1..];
    }
  }

  lemma {:induction false} LessTransitive(a: string, b: string, c: string)
    requires Less(a, b) && Less(b, c)
    ensures Less(a, c)
    decreases |a|
  {
    if a != [] && a[0] == b[0] && b[0] == c[0] {
      LessTransitive(a[1..], b[1..], c[1..]);
    }
  }

  ghost predicate SameMembers<T(!new)>(s: seq<T>, t: seq<T>) {
    forall x :: x in s <==> x in t
  }

  lemma {:induction false} NoneHasNoMembers<T(!new)>(s: seq<T>, t: seq<T>)
    requires SameMembers(s, t)
    ensures s == [] <==> t == []
  {
    assert s != [] ==> s[0] in s;
    assert t != [] ==> t[0] in t;
  }

  lemma {:induction false} FrontsHaveSameMembers<T(!new)>(s: seq<T>, t: seq<T>)
    requires SameMembers(s, t) && s != [] && t != [] && s[|s| - 1] == t[|t| - 1]
    requires s[|s| - 1] !in s[..|s| - 1] && t[|t| - 1] !in t[..|t| - 1]
    ensures SameMembers(s[..|s| - 1], t[..|t| - 1])
  {
    var s', t', x := s[..|s| - 1], t[..|t| - 1], s[|s| - 1];
    assert s == s' + [x] && t == t' + [x];
    forall y ensures y in s' <==> y in t' {
      assert (y in s <==> y in s' || y == x) && (y in t <==> y in t' || y == x);
    }
  }

  // ---- std::set<std::string> ---------------------------------------------------------------

  ghost predicate Ascending(s: seq<string>) {
    forall i, j | 0 <= i < j < |s| :: Less(s[i], s[j])
  }

  /** How many elements are less than `x`. */
  function Rank(s: seq<string>, x: string): (k: nat)
    ensures k <= |s|
    ensures forall i | 0 <= i < k :: Less(s[i], x)
    ensures k < |s| ==> !Less(s[k], x)
  {
    if s == [] || !Less(s[0], x) then 0 else 1 + Rank(s[1..], x)
  }

  function Inserted(s: seq<string>, x: string): seq<string> {
    if x in s then s else s[..Rank(s, x)] + [x] + s[Rank(s, x)..]
  }

  lemma {:induction false} InsertedMembers(s: seq<string>, x: string, y: string)
    ensures y in Inserted(s, x) <==> y in s || y == x
  {
  }

  lemma {:induction false} InsertedAscends(s: seq<string>, x: string)
    requires Ascending(s)
    ensures Ascending(Inserted(s, x))
  {
    hide Less;
    if x !in s {
      var k := Rank(s, x);
      forall i | k <= i < |s| ensures Less(x, s[i]) {
        LessTotal(s[k], x);
        if k < i { LessTransitive(x, s[k], s[i]); }
      }
    }
  }

  /** The last of an ascending sequence is less than no element. */
  lemma {:induction false} LastIsGreatest(s: seq<string>, x: string)
    requires Ascending(s) && x in s
    ensures x == s[|s| - 1] || (x in s[..|s| - 1] && Less(x, s[|s| - 1]))
    ensures s[|s| - 1] !in s[..|s| - 1]
  {
    hide Less;
    var last := s[|s| - 1];
    forall i | 0 <= i < |s| - 1 ensures s[i] != last {
      LessAsymmetric(s[i], last);
    }
    assert s == s[..|s| - 1] + [last];
  }

  /** An ordered set is determined by its elements. */
  lemma {:induction false} AscendingUnique(s: seq<string>, t: seq<string>)
    requires Ascending(s) && Ascending(t) && SameMembers(s, t)
    ensures s == t
    decreases |s|
  {
    NoneHasNoMembers(s, t);
    if s != [] {
      var x, y := s[|s| - 1], t[|t| - 1];
      assert x in t && y in s;
      hide SameMembers, Less;
      LastIsGreatest(s, y);
      LastIsGreatest(t, x);
      if Less(x, y) { LessAsymmetric(x, y); }
      FrontsHaveSameMembers(s, t);
      assert s == s[..|s| - 1] + [x] && t == t[..|t| - 1] + [y];
      AscendingUnique(s[..|s| - 1], t[..|t| - 1]);
    }
  }

  // ---- stably sorted indices ---------------------------------------------------------------

  /** The sort key `a` goes in front of `b`. */
  predicate Before(a: string, b: string, down: bool) {
    if down then Less(a, b) else Less(b, a)
  }

  lemma {:induction false} BeforeIsWeakOrder(a: string, b: string, c: string, down: bool)
    ensures !Before(a, a, down) && !(Before(a, b, down) && Before(b, a, down))
    ensures Before(a, b, down) && !Before(c, b, down) ==> Before(a, c, down)
    ensures !Before(b, a, down) && Before(b, c, down) ==> Before(a, c, down)
  {
    if Before(a, a, down) { LessAsymmetric(a, a); }
    if Less(a, b) { LessAsymmetric(a, b); }
    LessTotal(b, c);
    LessTotal(a, b);
    if Less(a, b) && Less(b, c) { LessTransitive(a, b, c); }
    if Less(c, b) && Less(b, a) { LessTransitive(c, b, a); }
  }

  /** Element `i` belongs in front of element `j`: by key, and among equal keys by age. */
  predicate StablyBefore(keys: seq<string>, down: bool, i: nat, j: nat)
    requires i < |keys| && j < |keys|
  {
    Before(keys[i], keys[j], down) || (!Before(keys[j], keys[i], down) && i < j)
  }

  lemma {:induction false} StablyBeforeIsOrder(keys: seq<string>, down: bool, i: nat, j: nat, k: nat)
    requires i < |keys| && j < |keys| && k < |keys|
    ensures !StablyBefore(keys, down, i, i)
    ensures StablyBefore(keys, down, i, j) ==> !StablyBefore(keys, down, j, i)
    ensures i != j ==> StablyBefore(keys, down, i, j) || StablyBefore(keys, down, j, i)
    ensures StablyBefore(keys, down, i, j) && StablyBefore(keys, down, j, k) ==> StablyBefore(keys, down, i, k)
  {
    hide Before;
    BeforeIsWeakOrder(keys[i], keys[j], keys[k], down);
    BeforeIsWeakOrder(keys[i], keys[j], keys[i], down);
    BeforeIsWeakOrder(keys[j], keys[i], keys[j], down);
    BeforeIsWeakOrder(keys[k], keys[i], keys[j], down);
    BeforeIsWeakOrder(keys[j], keys[k], keys[i], down);
    BeforeIsWeakOrder(keys[j], keys[k], keys[j], down);
    BeforeIsWeakOrder(keys[i], keys[k], keys[i], down);
    BeforeIsWeakOrder(keys[k], keys[j], keys[i], down);
    BeforeIsWeakOrder(keys[i], keys[k], keys[j], down);
  }

  ghost predicate Sorted(keys: seq<string>, down: bool, index: seq<nat>) {
    && (forall p | 0 <= p < |index| :: index[p] < |keys|)
    && (forall p, q | 0 <= p < q < |index| :: StablyBefore(keys, down, index[p], index[q]))
  }

  ghost predicate Lists(shown: seq<bool>, index: seq<nat>) {
    forall i: nat :: i in index <==> i < |shown| && shown[i]
  }

  /** The index is the stable sort of the shown elements. */
  ghost predicate IsStableSort(keys: seq<string>, shown: seq<bool>, down: bool, index: seq<nat>) {
    |shown| == |keys| && Sorted(keys, down, index) && Lists(shown, index)
  }

  lemma {:induction false} LastIsLast(keys: seq<string>, down: bool, s: seq<nat>, i: nat)
    requires Sorted(keys, down, s) && i in s
    ensures i < |keys| && s[|s| - 1] < |keys|
    ensures i == s[|s| - 1] || (i in s[..|s| - 1] && StablyBefore(keys, down, i, s[|s| - 1]))
    ensures s[|s| - 1] !in s[..|s| - 1]
  {
    hide StablyBefore;
    var last := s[|s| - 1];
    StablyBeforeIsOrder(keys, down, last, last, last);
    assert s == s[..|s| - 1] + [last];
  }

  /** There is only one. */
  lemma {:induction false} SortedUnique(keys: seq<string>, down: bool, s: seq<nat>, t: seq<nat>)
    requires Sorted(keys, down, s) && Sorted(keys, down, t) && SameMembers(s, t)
    ensures s == t
    decreases |s|
  {
    NoneHasNoMembers(s, t);
    if s != [] {
      var x, y := s[|s| - 1], t[|t| - 1];
      assert x in t && y in s;
      hide SameMembers, StablyBefore;
      LastIsLast(keys, down, s, y);
      LastIsLast(keys, down, t, x);
      StablyBeforeIsOrder(keys, down, x, y, x);
      FrontsHaveSameMembers(s, t);
      assert s == s[..|s| - 1] + [x] && t == t[..|t| - 1] + [y];
      SortedUnique(keys, down, s[..|s| - 1], t[..|t| - 1]);
    }
  }

  lemma {:induction false} StableSortUnique(keys: seq<string>, shown: seq<bool>, down: bool, s: seq<nat>, t: seq<nat>)
    requires IsStableSort(keys, shown, down, s) && IsStableSort(keys, shown, down, t)
    ensures s == t
  {
    SortedUnique(keys, down, s, t);
  }

  // ---- insertion ---------------------------------------------------------------------------

  /** The first place from `k` on whose key is strictly greater. */
  function Slot(keys: seq<string>, down: bool, index: seq<nat>, i: nat, k: nat): (p: nat)
    requires i < |keys| && k <= |index| && forall p | 0 <= p < |index| :: index[p] < |keys|
    ensures k <= p <= |index|
    ensures forall q | k <= q < p :: !Before(keys[i], keys[index[q]], down)
    ensures p < |index| ==> Before(keys[i], keys[index[p]], down)
    decreases |index| - k
  {
    if k == |index| || Before(keys[i], keys[index[k]], down) then k else Slot(keys, down, index, i, k + 1)
  }

  function InsertedAt(index: seq<nat>, p: nat, i: nat): seq<nat>
    requires p <= |index|
  {
    index[..p] + [i] + index[p..]
  }

  lemma {:induction false} InsertedAtMembers(index: seq<nat>, p: nat, i: nat)
    requires p <= |index|
    ensures forall x: nat :: x in InsertedAt(index, p, i) <==> x in index || x == i
  {
  }

  /** Inserting the youngest element there keeps the index sorted. */
  lemma {:induction false} InsertKeepsSorted(keys: seq<string>, down: bool, index: seq<nat>, i: nat)
    requires i < |keys| && Sorted(keys, down, index) && forall p | 0 <= p < |index| :: index[p] < i
    ensures Sorted(keys, down, InsertedAt(index, Slot(keys, down, index, i, 0), i))
  {
    hide Before;
    var p := Slot(keys, down, index, i, 0);
    forall q | 0 <= q < p ensures StablyBefore(keys, down, index[q], i) {
      assert !Before(keys[i], keys[index[q]], down);
    }
    forall q | p <= q < |index| ensures StablyBefore(keys, down, i, index[q]) {
      if p < q {
        assert StablyBefore(keys, down, index[p], index[q]);
        StablyBeforeIsOrder(keys, down, i, index[p], index[q]);
      }
    }
    InsertedIsSorted(keys, down, index, p, i);
  }

  lemma {:induction false} InsertedIsSorted(keys: seq<string>, down: bool, index: seq<nat>, p: nat, i: nat)
    requires i < |keys| && Sorted(keys, down, index) && p <= |index|
    requires forall q | 0 <= q < p :: StablyBefore(keys, down, index[q], i)
    requires forall q | p <= q < |index| :: StablyBefore(keys, down, i, index[q])
    ensures Sorted(keys, down, InsertedAt(index, p, i))
  {
  }

  lemma {:induction false} SortedPrefix(keys: seq<string>, keys': seq<string>, down: bool, index: seq<nat>)
    requires keys <= keys' && Sorted(keys, down, index)
    ensures Sorted(keys', down, index)
  {
  }

  // ---- one element changes -----------------------------------------------------------------

  /** The element at place `p` is in order with its neighbours. */
  predicate FitsAt(keys: seq<string>, down: bool, index: seq<nat>, p: nat)
    requires p < |index| && forall q | 0 <= q < |index| :: index[q] < |keys|
  {
    && (p > 0 ==> StablyBefore(keys, down, index[p - 1], index[p]))
    && (p + 1 < |index| ==> StablyBefore(keys, down, index[p], index[p + 1]))
  }

  /** If the key and the visibility of one element change, the index remains the stable sort
      exactly if the visibility stays the same and the element, if shown, still fits between its
      two neighbours. */
  lemma {:induction false} ChangeKeepsIndexIff(keys: seq<string>, shown: seq<bool>, down: bool, index: seq<nat>,
      k: nat, key: string, show: bool)
    requires IsStableSort(keys, shown, down, index) && k < |keys|
    ensures IsStableSort(keys[k := key], shown[k := show], down, index) <==>
              show == shown[k] && forall p | 0 <= p < |index| && index[p] == k :: FitsAt(keys[k := key], down, index, p)
  {
    hide StablyBefore;
    var keys', shown' := keys[k := key], shown[k := show];
    if show == shown[k] {
      assert shown' == shown;
      if forall p | 0 <= p < |index| && index[p] == k :: FitsAt(keys', down, index, p) {
        ChangedIsSorted(keys, down, index, k, key);
      }
    } else {
      assert k in index <==> shown[k];
    }
  }

  lemma {:induction false} ChangedIsSorted(keys: seq<string>, down: bool, index: seq<nat>, k: nat, key: string)
    requires Sorted(keys, down, index) && k < |keys|
    requires forall p | 0 <= p < |index| && index[p] == k :: FitsAt(keys[k := key], down, index, p)
    ensures Sorted(keys[k := key], down, index)
  {
    var keys' := keys[k := key];
    forall p, q | 0 <= p < q < |index| ensures StablyBefore(keys', down, index[p], index[q]) {
      SortedPair(keys, down, index, k, key, p, q);
    }
  }

  lemma {:induction false} SortedPair(keys: seq<string>, down: bool, index: seq<nat>, k: nat, key: string, p: nat,
      q: nat)
    requires Sorted(keys, down, index) && k < |keys| && p < q < |index|
    requires forall p | 0 <= p < |index| && index[p] == k :: FitsAt(keys[k := key], down, index, p)
    ensures StablyBefore(keys[k := key], down, index[p], index[q])
  {
    hide Before;
    var keys' := keys[k := key];
    assert StablyBefore(keys, down, index[p], index[q]);
    StablyBeforeIsOrder(keys, down, index[p], index[q], index[p]);
    if index[q] == k {
      assert FitsAt(keys', down, index, q);
      if p < q - 1 {
        assert StablyBefore(keys, down, index[p], index[q - 1]) && StablyBefore(keys, down, index[q - 1], index[q]);
        StablyBeforeIsOrder(keys, down, index[q - 1], index[q], index[q - 1]);
        StablyBeforeIsOrder(keys', down, index[p], index[q - 1], index[q]);
      }
    } else if index[p] == k {
      assert FitsAt(keys', down, index, p);
      if p + 1 < q {
        assert StablyBefore(keys, down, index[p], index[p + 1]) && StablyBefore(keys, down, index[p + 1], index[q]);
        StablyBeforeIsOrder(keys, down, index[p], index[p + 1], index[p]);
        StablyBeforeIsOrder(keys', down, index[p], index[p + 1], index[q]);
      }
    }
  }
}
