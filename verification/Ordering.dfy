/**
 Manual ordering by position keys: the drag and insert operations of
 web/src/lib/stores/notes.ts, seen on the (id, key) pairs of one displayed list.
 Notes are displayed by descending key, checklist items by ascending key.
 */
module Ordering {
  import opened Lex
  import opened FracIndex
  import Seqs

  datatype Entry<I> = Entry(id: I, key: string)

  /** k is displayed before l. */
  predicate Shown(desc: bool, k: string, l: string) {
    if desc then Less(l, k) else Less(k, l)
  }

  predicate StrictlySorted<I>(desc: bool, list: seq<Entry<I>>) {
    forall i, j :: 0 <= i < j < |list| ==> Shown(desc, list[i].key, list[j].key)
  }

  ghost predicate UniqueIds<I>(list: seq<Entry<I>>) {
    forall i, j :: 0 <= i < j < |list| ==> list[i].id != list[j].id
  }

  /** No entry is displayed before one that should come first; equal keys stand in any order. */
  predicate Sorted<I>(desc: bool, list: seq<Entry<I>>) {
    forall i, j :: 0 <= i < j < |list| ==> !Shown(desc, list[j].key, list[i].key)
  }

  /** output is what sorting input by key may produce. */
  ghost predicate IsSorting<I>(desc: bool, input: seq<Entry<I>>, output: seq<Entry<I>>) {
    multiset(input) == multiset(output) && Sorted(desc, output)
  }

  // ---- reorder / reorderItem ----

  /** Keys over the alphabet; the archive position of a note that was never archived is empty. */
  predicate AlphabetKeys<I(==)>(list: seq<Entry<I>>) {
    forall e :: e in list ==> Key(e.key)
  }

  predicate PositionKeys<I(==)>(list: seq<Entry<I>>) {
    forall e :: e in list ==> Position(e.key)
  }

  function Without<I(==)>(list: seq<Entry<I>>, id: I): (rest: seq<Entry<I>>)
    ensures AlphabetKeys(list) ==> AlphabetKeys(rest)
    ensures PositionKeys(list) ==> PositionKeys(rest)
  {
    if list == [] then []
    else
      var rest, e := Without(list[..|list| - 1], id), list[|list| - 1];
      if e.id == id then rest else rest + [e]
  }

  /** A target within the list is taken as it is; one before it means the front, one beyond it the end. */
  function Clamp(target: int, length: nat): (index: nat)
    ensures index <= length
    ensures 0 <= target <= length ==> index == target
    ensures target < 0 ==> index == 0
    ensures target > length ==> index == length
  {
    var m := if target < length then target else length;
    if m > 0 then m else 0
  }

  function KeyAt<I>(list: seq<Entry<I>>, i: int): string {
    if 0 <= i < |list| then list[i].key else ""
  }

  /** The key for a drop between positions index-1 and index of a list. */
  function DropKey<I(==)>(desc: bool, rest: seq<Entry<I>>, index: nat): string
    requires AlphabetKeys(rest)
  {
    if desc then Between(KeyAt(rest, index), KeyAt(rest, index - 1))
    else Between(KeyAt(rest, index - 1), KeyAt(rest, index))
  }

  function SetKey<I(==)>(list: seq<Entry<I>>, id: I, key: string): (r: seq<Entry<I>>)
    ensures |r| == |list|
  {
    seq(|list|, i requires 0 <= i < |list| => if list[i].id == id then Entry(id, key) else list[i])
  }

  /** What the user asked for: the dragged entry taken out and put in at the target. */
  function Splice<I>(rest: seq<Entry<I>>, index: nat, e: Entry<I>): seq<Entry<I>>
    requires index <= |rest|
  {
    rest[..index] + [e] + rest[index..]
  }

  lemma ShownTransitive(desc: bool, k: string, l: string, m: string)
    requires Shown(desc, k, l) && Shown(desc, l, m)
    ensures Shown(desc, k, m)
  {
    if desc {
      LessTransitive(m, l, k);
    } else {
      LessTransitive(k, l, m);
    }
  }

  lemma {:induction false} WithoutAbsent<I>(list: seq<Entry<I>>, id: I)
    requires forall i :: 0 <= i < |list| ==> list[i].id != id
    ensures Without(list, id) == list
  {
    if list != [] {
      var init, last := list[..|list| - 1], list[|list| - 1];
      WithoutAbsent(init, id);
      Seqs.InitAndLast(list);
    }
  }

  lemma {:induction false} WithoutAt<I>(list: seq<Entry<I>>, p: nat)
    requires p < |list| && UniqueIds(list)
    ensures Without(list, list[p].id) == list[..p] + list[p + 1..]
  {
    var n := |list| - 1;
    var init, last := list[..n], list[n];
    if p == n {
      WithoutAbsent(init, last.id);
      assert list[p + 1..] == [];
    } else {
      WithoutAt(init, p);
      assert init[..p] == list[..p] && list[p + 1..] == init[p + 1..] + [last];
      Seqs.Associates(list[..p], init[p + 1..], [last]);
    }
  }

  lemma SameFirst<I>(desc: bool, s: seq<Entry<I>>, output: seq<Entry<I>>)
    requires StrictlySorted(desc, s) && IsSorting(desc, s, output) && s != []
    ensures output != [] && output[0] == s[0]
  {
    assert s[0] in multiset(output);
    assert output[0] in multiset(s);
    var i :| 0 <= i < |s| && s[i] == output[0];
    var j :| 0 <= j < |output| && output[j] == s[0];
    assert i > 0 ==> Shown(desc, s[0].key, s[i].key);
    assert j > 0 ==> !Shown(desc, output[j].key, output[0].key);
  }

  lemma TailContents<I>(s: seq<Entry<I>>)
    requires s != []
    ensures multiset(s[1..]) == multiset(s) - multiset{s[0]}
  {
    assert s == [s[0]] + s[1..];
  }

  /** Sorting has only one outcome when some arrangement is strictly sorted. */
  lemma {:induction false} SortingUnique<I>(desc: bool, s: seq<Entry<I>>, output: seq<Entry<I>>)
    requires StrictlySorted(desc, s) && IsSorting(desc, s, output)
    ensures output == s
  {
    assert |s| == |multiset(s)| == |multiset(output)| == |output|;
    if s != [] {
      SameFirst(desc, s, output);
      TailContents(s);
      TailContents(output);
      SortingUnique(desc, s[1..], output[1..]);
      assert s == [s[0]] + s[1..] && output == [s[0]] + output[1..];
    }
  }

  /** Inserting an entry whose key fits between its neighbours keeps the list strictly sorted. */
  lemma SpliceSorted<I>(desc: bool, rest: seq<Entry<I>>, index: nat, e: Entry<I>)
    requires index <= |rest| && StrictlySorted(desc, rest)
    requires index > 0 ==> Shown(desc, rest[index - 1].key, e.key)
    requires index < |rest| ==> Shown(desc, e.key, rest[index].key)
    ensures StrictlySorted(desc, Splice(rest, index, e))
  {
    forall i | 0 <= i < index ensures Shown(desc, rest[i].key, e.key) {
      if i < index - 1 {
        ShownTransitive(desc, rest[i].key, rest[index - 1].key, e.key);
      }
    }
    forall i | index <= i < |rest| ensures Shown(desc, e.key, rest[i].key) {
      if i > index {
        ShownTransitive(desc, e.key, rest[index].key, rest[i].key);
      }
    }
  }

  lemma SpliceMembers<I>(rest: seq<Entry<I>>, index: nat, e: Entry<I>)
    requires index <= |rest|
    ensures e in Splice(rest, index, e) && forall x :: x in rest ==> x in Splice(rest, index, e)
  {
    assert Splice(rest, index, e)[index] == e;
    forall x | x in rest ensures x in Splice(rest, index, e) {
      var i :| 0 <= i < |rest| && rest[i] == x;
      assert Splice(rest, index, e)[if i < index then i else i + 1] == x;
    }
  }

  lemma WithoutSorted<I>(desc: bool, list: seq<Entry<I>>, p: nat)
    requires p < |list| && UniqueIds(list) && StrictlySorted(desc, list)
    ensures StrictlySorted(desc, Without(list, list[p].id))
  {
    WithoutAt(list, p);
  }

  lemma SpliceMultiset<I>(rest: seq<Entry<I>>, index: nat, e: Entry<I>)
    requires index <= |rest|
    ensures multiset(Splice(rest, index, e)) == multiset(rest) + multiset{e}
  {
    assert rest == rest[..index] + rest[index..];
  }

  /** Re-keying the dragged entry and splicing it hold the same entries. */
  lemma SpliceContents<I>(list: seq<Entry<I>>, p: nat, index: nat, key: string)
    requires p < |list| && UniqueIds(list) && index < |list|
    ensures |Without(list, list[p].id)| == |list| - 1
    ensures multiset(SetKey(list, list[p].id, key))
            == multiset(Splice(Without(list, list[p].id), index, Entry(list[p].id, key)))
  {
    var e := Entry(list[p].id, key);
    WithoutAt(list, p);
    assert SetKey(list, list[p].id, key) == Splice(list[..p] + list[p + 1..], p, e);
    SpliceMultiset(list[..p] + list[p + 1..], p, e);
    SpliceMultiset(list[..p] + list[p + 1..], index, e);
  }

  /** The neighbours between which a drop lands, lower key first. */
  function LowerKey<I>(desc: bool, rest: seq<Entry<I>>, index: nat): string {
    KeyAt(rest, if desc then index else index - 1)
  }

  function UpperKey<I>(desc: bool, rest: seq<Entry<I>>, index: nat): string {
    KeyAt(rest, if desc then index - 1 else index)
  }

  /** There is an entry whose key the new one must stay below. */
  predicate HasUpper<I>(desc: bool, rest: seq<Entry<I>>, index: nat) {
    if desc then 0 < index else index < |rest|
  }

  /**
   There is room below the upper neighbour: its key is above the lower one's, which an empty key
   or a tie is not, and is not the lower one followed only by '0's.
   */
  predicate HasRoom<I>(desc: bool, rest: seq<Entry<I>>, index: nat) {
    HasUpper(desc, rest, index) ==>
      && Less(LowerKey(desc, rest, index), UpperKey(desc, rest, index))
      && !ZeroExtension(LowerKey(desc, rest, index), UpperKey(desc, rest, index))
  }

  lemma DropFits<I>(desc: bool, rest: seq<Entry<I>>, index: nat)
    requires AlphabetKeys(rest) && index <= |rest| && HasRoom(desc, rest, index)
    ensures index > 0 ==> Shown(desc, rest[index - 1].key, DropKey(desc, rest, index))
    ensures index < |rest| ==> Shown(desc, DropKey(desc, rest, index), rest[index].key)
  {
    assert Key(KeyAt(rest, index)) && Key(KeyAt(rest, index - 1));
    BetweenExact(LowerKey(desc, rest, index), UpperKey(desc, rest, index));
  }

  /** Without room the new key lands beyond the upper neighbour. */
  lemma KeyOvershoots(lower: string, upper: string)
    requires Key(lower) && Key(upper) && (upper == "" || lower == upper || ZeroExtension(lower, upper))
    ensures Less(upper, Between(lower, upper))
  {
    BetweenExact(lower, upper);
    if upper != "" && lower != upper {
      assert upper[|upper| - 1] == upper[|lower|..][|upper| - 1 - |lower|] == '0';
      LessTotal(Between(lower, upper), upper);
    }
  }

  lemma DropMisses<I>(desc: bool, rest: seq<Entry<I>>, index: nat)
    requires AlphabetKeys(rest) && Sorted(desc, rest) && index <= |rest| && !HasRoom(desc, rest, index)
    ensures Less(UpperKey(desc, rest, index), DropKey(desc, rest, index))
  {
    var lower, upper := LowerKey(desc, rest, index), UpperKey(desc, rest, index);
    assert Key(KeyAt(rest, index)) && Key(KeyAt(rest, index - 1));
    LessTotal(lower, upper);
    assert 0 < index < |rest| ==> !Shown(desc, rest[index].key, rest[index - 1].key);
    KeyOvershoots(lower, upper);
  }

  // ---- where an entry lands when equal keys may stand in any order ----

  lemma ShownMixed(desc: bool, k: string, l: string, m: string)
    ensures !Shown(desc, l, k) && Shown(desc, l, m) ==> Shown(desc, k, m)
    ensures Shown(desc, k, l) && !Shown(desc, m, l) ==> Shown(desc, k, m)
  {
    LessTotal(k, l);
    LessTotal(l, m);
    if Shown(desc, k, l) && Shown(desc, l, m) {
      ShownTransitive(desc, k, l, m);
    }
  }

  lemma PartOf<X>(a: multiset<X>, b: multiset<X>, c: multiset<X>, d: multiset<X>)
    requires a + b == c + d && forall x :: x in a ==> x !in d
    ensures |a| <= |c|
  {
    forall x ensures a[x] <= c[x] {
      assert (a + b)[x] == (c + d)[x];
    }
    assert c == a + (c - a);
  }

  lemma Cancel<X>(a: multiset<X>, b: multiset<X>, e: X)
    requires a + multiset{e} == b + multiset{e}
    ensures a == b
  {
    forall x ensures a[x] == b[x] {
      assert (a + multiset{e})[x] == (b + multiset{e})[x];
    }
  }

  lemma OneMore<I>(rest: seq<Entry<I>>, e: Entry<I>, list: seq<Entry<I>>)
    requires multiset(list) == multiset(rest) + multiset{e}
    ensures |list| == |rest| + 1
  {
    assert |multiset(list)| == |multiset(rest)| + 1;
  }

  /** What is in a list before and after position j. */
  lemma Halves<I>(rest: seq<Entry<I>>, e: Entry<I>, sorted: seq<Entry<I>>, j: nat, cut: nat)
    requires multiset(sorted) == multiset(rest) + multiset{e} && j < |sorted| && sorted[j] == e && cut <= |rest|
    ensures multiset(sorted[..j]) + multiset(sorted[j + 1..]) == multiset(rest[..cut]) + multiset(rest[cut..])
    ensures |sorted| == |rest| + 1
  {
    var before, after := sorted[..j], sorted[j + 1..];
    OneMore(rest, e, sorted);
    assert sorted == before + ([e] + after);
    assert rest == rest[..cut] + rest[cut..];
    assert multiset(sorted) == (multiset(before) + multiset(after)) + multiset{e};
    Cancel(multiset(before) + multiset(after), multiset(rest), e);
  }

  /** Entries that belong after e leave it at most at their cut. */
  lemma LandsAtMost<I>(desc: bool, rest: seq<Entry<I>>, e: Entry<I>, sorted: seq<Entry<I>>, j: nat, cut: nat)
    requires Sorted(desc, sorted) && multiset(sorted) == multiset(rest) + multiset{e}
    requires j < |sorted| && sorted[j] == e && cut <= |rest|
    requires forall x :: x in rest[cut..] ==> Shown(desc, e.key, x.key)
    ensures j <= cut
  {
    Halves(rest, e, sorted, j, cut);
    forall x | x in multiset(sorted[..j]) ensures x !in multiset(rest[cut..]) {
      var i :| 0 <= i < j && sorted[..j][i] == x;
      assert !Shown(desc, sorted[j].key, sorted[i].key);
    }
    PartOf(multiset(sorted[..j]), multiset(sorted[j + 1..]), multiset(rest[..cut]), multiset(rest[cut..]));
  }

  /** Entries that belong before e leave it at least at their cut. */
  lemma LandsAtLeast<I>(desc: bool, rest: seq<Entry<I>>, e: Entry<I>, sorted: seq<Entry<I>>, j: nat, cut: nat)
    requires Sorted(desc, sorted) && multiset(sorted) == multiset(rest) + multiset{e}
    requires j < |sorted| && sorted[j] == e && cut <= |rest|
    requires forall x :: x in rest[..cut] ==> Shown(desc, x.key, e.key)
    ensures j >= cut
  {
    Halves(rest, e, sorted, j, cut);
    var after := sorted[j + 1..];
    forall x | x in multiset(after) ensures x !in multiset(rest[..cut]) {
      var i :| 0 <= i < |after| && after[i] == x;
      assert !Shown(desc, sorted[j + 1 + i].key, sorted[j].key);
    }
    var high, low := multiset(rest[..cut]), multiset(rest[cut..]);
    assert high + low == low + high;
    PartOf(multiset(after), multiset(sorted[..j]), low, high);
  }

  /** With room, e belongs after everything above the cut and before everything below it. */
  lemma RoomSeparates<I>(desc: bool, rest: seq<Entry<I>>, index: nat, e: Entry<I>)
    requires AlphabetKeys(rest) && Sorted(desc, rest) && index <= |rest|
    requires e.key == DropKey(desc, rest, index) && HasRoom(desc, rest, index)
    ensures forall x :: x in rest[..index] ==> Shown(desc, x.key, e.key)
    ensures forall x :: x in rest[index..] ==> Shown(desc, e.key, x.key)
  {
    DropFits(desc, rest, index);
    forall x | x in rest[..index] ensures Shown(desc, x.key, e.key) {
      var i :| 0 <= i < index && rest[..index][i] == x;
      ShownMixed(desc, x.key, rest[index - 1].key, e.key);
    }
    forall x | x in rest[index..] ensures Shown(desc, e.key, x.key) {
      var i :| 0 <= i < |rest| - index && rest[index..][i] == x;
      ShownMixed(desc, e.key, rest[index].key, x.key);
    }
  }

  /** Without room, e belongs beyond its upper neighbour and whatever is no higher. */
  lemma NoRoomOvershoots<I>(desc: bool, rest: seq<Entry<I>>, index: nat, e: Entry<I>)
    requires AlphabetKeys(rest) && Sorted(desc, rest) && index <= |rest|
    requires e.key == DropKey(desc, rest, index) && !HasRoom(desc, rest, index)
    ensures desc ==> forall x :: x in rest[index - 1..] ==> Shown(desc, e.key, x.key)
    ensures !desc ==> forall x :: x in rest[..index + 1] ==> Shown(desc, x.key, e.key)
  {
    DropMisses(desc, rest, index);
    if desc {
      forall x | x in rest[index - 1..] ensures Shown(desc, e.key, x.key) {
        var i :| 0 <= i <= |rest| - index && rest[index - 1..][i] == x;
        ShownMixed(desc, e.key, rest[index - 1].key, x.key);
      }
    } else {
      forall x | x in rest[..index + 1] ensures Shown(desc, x.key, e.key) {
        var i :| 0 <= i <= index && rest[..index + 1][i] == x;
        ShownMixed(desc, x.key, rest[index].key, e.key);
      }
    }
  }

  /**
   Where a newly keyed entry lands, exactly: every sorting puts it at index if there is room, and
   none does if there is not. Ties among the other entries, and with it, are allowed for.
   */
  lemma LandsExact<I>(desc: bool, rest: seq<Entry<I>>, index: nat, e: Entry<I>, sorted: seq<Entry<I>>)
    requires AlphabetKeys(rest) && Sorted(desc, rest) && index <= |rest| && e.key == DropKey(desc, rest, index)
    requires Sorted(desc, sorted) && multiset(sorted) == multiset(rest) + multiset{e}
    ensures |sorted| == |rest| + 1
    ensures sorted[index] == e <==> HasRoom(desc, rest, index)
  {
    assert e in multiset(sorted);
    var j :| 0 <= j < |sorted| && sorted[j] == e;
    Halves(rest, e, sorted, j, 0);
    if HasRoom(desc, rest, index) {
      RoomSeparates(desc, rest, index, e);
      LandsAtMost(desc, rest, e, sorted, j, index);
      LandsAtLeast(desc, rest, e, sorted, j, index);
    } else {
      NoRoomOvershoots(desc, rest, index, e);
      if sorted[index] == e && desc {
        LandsAtMost(desc, rest, e, sorted, index, index - 1);
      } else if sorted[index] == e {
        LandsAtLeast(desc, rest, e, sorted, index, index + 1);
      }
    }
  }

  lemma ShownAsymmetric(desc: bool, k: string, l: string)
    requires Shown(desc, k, l)
    ensures !Shown(desc, l, k)
  {
    if desc {
      LessAsymmetric(l, k);
    } else {
      LessAsymmetric(k, l);
    }
  }

  lemma SplicedInRoom<I>(desc: bool, rest: seq<Entry<I>>, index: nat, e: Entry<I>)
    requires Sorted(desc, rest) && index <= |rest|
    requires forall x :: x in rest[..index] ==> Shown(desc, x.key, e.key)
    requires forall x :: x in rest[index..] ==> Shown(desc, e.key, x.key)
    ensures Sorted(desc, Splice(rest, index, e))
  {
    forall i | 0 <= i < index ensures !Shown(desc, e.key, rest[i].key) {
      assert rest[i] == rest[..index][i];
      ShownAsymmetric(desc, rest[i].key, e.key);
    }
    forall i | index <= i < |rest| ensures !Shown(desc, rest[i].key, e.key) {
      assert rest[i] == rest[index..][i - index];
      ShownAsymmetric(desc, e.key, rest[i].key);
    }
  }

  /** The spliced list is a sorting exactly when there is room. */
  lemma SpliceIsSortedExact<I>(desc: bool, rest: seq<Entry<I>>, index: nat, e: Entry<I>)
    requires AlphabetKeys(rest) && Sorted(desc, rest) && index <= |rest| && e.key == DropKey(desc, rest, index)
    ensures Sorted(desc, Splice(rest, index, e)) <==> HasRoom(desc, rest, index)
  {
    if HasRoom(desc, rest, index) {
      RoomSeparates(desc, rest, index, e);
      SplicedInRoom(desc, rest, index, e);
    } else if Sorted(desc, Splice(rest, index, e)) {
      SpliceMultiset(rest, index, e);
      LandsExact(desc, rest, index, e, Splice(rest, index, e));
    }
  }

  // ---- drags ----

  /** Re-keying the dragged entry keeps the others sorted among themselves. */
  lemma WithoutKeepsSorted<I>(desc: bool, list: seq<Entry<I>>, p: nat)
    requires p < |list| && UniqueIds(list) && Sorted(desc, list)
    ensures Sorted(desc, Without(list, list[p].id))
  {
    WithoutAt(list, p);
  }

  /**
   A drag is a splice, exactly: changing only the dragged entry's key to DropKey and re-sorting
   may give the list with the entry removed and inserted at the clamped target, and surely puts
   the entry there, if and only if there is room below the upper neighbour. The list may contain
   equal keys.
   */
  lemma DragExact<I>(desc: bool, list: seq<Entry<I>>, p: nat, target: int, sorted: seq<Entry<I>>)
    requires p < |list| && UniqueIds(list) && AlphabetKeys(list) && Sorted(desc, list)
    requires var rest := Without(list, list[p].id);
             IsSorting(desc, SetKey(list, list[p].id, DropKey(desc, rest, Clamp(target, |rest|))), sorted)
    ensures var rest := Without(list, list[p].id);
            var index := Clamp(target, |rest|);
            var e := Entry(list[p].id, DropKey(desc, rest, index));
            && index < |sorted|
            && (sorted[index] == e <==> HasRoom(desc, rest, index))
            && (IsSorting(desc, SetKey(list, list[p].id, e.key), Splice(rest, index, e)) <==> HasRoom(desc, rest, index))
  {
    var rest := Without(list, list[p].id);
    var index := Clamp(target, |rest|);
    var e := Entry(list[p].id, DropKey(desc, rest, index));
    WithoutKeepsSorted(desc, list, p);
    WithoutAt(list, p);
    SpliceContents(list, p, index, e.key);
    SpliceMultiset(rest, index, e);
    LandsExact(desc, rest, index, e, sorted);
    SpliceIsSortedExact(desc, rest, index, e);
  }

  /** Neighbours with equal keys. */
  predicate Tied<I>(rest: seq<Entry<I>>, index: nat) {
    0 < index < |rest| && rest[index - 1].key == rest[index].key
  }

  lemma PositionNeighbours<I>(desc: bool, rest: seq<Entry<I>>, index: nat)
    requires PositionKeys(rest) && index <= |rest|
    ensures !ZeroExtension(LowerKey(desc, rest, index), UpperKey(desc, rest, index))
    ensures Key(LowerKey(desc, rest, index)) && Key(UpperKey(desc, rest, index))
  {
    var lower, upper := LowerKey(desc, rest, index), UpperKey(desc, rest, index);
    if |lower| < |upper| {
      assert upper[|lower|..][|upper| - 1 - |lower|] == upper[|upper| - 1] != '0';
    }
  }

  /** Between stored keys there is room exactly if they differ. */
  lemma RoomOfPositions<I>(desc: bool, rest: seq<Entry<I>>, index: nat)
    requires PositionKeys(rest) && Sorted(desc, rest) && index <= |rest|
    ensures HasRoom(desc, rest, index) <==> !Tied(rest, index)
  {
    var lower, upper := LowerKey(desc, rest, index), UpperKey(desc, rest, index);
    PositionNeighbours(desc, rest, index);
    LessTotal(lower, upper);
    LessIrreflexive(lower);
    if 0 < index < |rest| {
      assert !Shown(desc, rest[index].key, rest[index - 1].key);
    }
  }

  /**
   On lists of stored keys, ties included: a drag puts the entry where it was dropped if and only
   if it was not dropped between two entries with equal keys.
   */
  lemma DragAmongTies<I>(desc: bool, list: seq<Entry<I>>, p: nat, target: int, sorted: seq<Entry<I>>)
    requires p < |list| && UniqueIds(list) && PositionKeys(list) && Sorted(desc, list)
    requires var rest := Without(list, list[p].id);
             IsSorting(desc, SetKey(list, list[p].id, DropKey(desc, rest, Clamp(target, |rest|))), sorted)
    ensures var rest := Without(list, list[p].id);
            var index := Clamp(target, |rest|);
            && index < |sorted|
            && (sorted[index].id == list[p].id <==> !Tied(rest, index))
  {
    var rest := Without(list, list[p].id);
    var index := Clamp(target, |rest|);
    var e := Entry(list[p].id, DropKey(desc, rest, index));
    WithoutKeepsSorted(desc, list, p);
    RoomOfPositions(desc, rest, index);
    DragExact(desc, list, p, target, sorted);
    assert sorted[index] in multiset(SetKey(list, list[p].id, e.key));
  }

  lemma SortingLength<I>(desc: bool, input: seq<Entry<I>>, output: seq<Entry<I>>)
    requires IsSorting(desc, input, output)
    ensures |output| == |input|
  {
    assert |multiset(output)| == |output| && |multiset(input)| == |input|;
  }

  /**
   Where a drag goes, among stored keys: dropped at a place of the list, the entry stands there
   afterwards if and only if it was not dropped between two equal keys; dropped before the front or
   beyond the end, it always stands first or last.
   */
  lemma DropLandsAtTarget<I>(desc: bool, list: seq<Entry<I>>, p: nat, target: int, sorted: seq<Entry<I>>)
    requires p < |list| && UniqueIds(list) && PositionKeys(list) && Sorted(desc, list)
    requires var rest := Without(list, list[p].id);
             IsSorting(desc, SetKey(list, list[p].id, DropKey(desc, rest, Clamp(target, |rest|))), sorted)
    ensures |sorted| == |list|
    ensures 0 <= target < |list| ==>
              (sorted[target].id == list[p].id <==> !Tied(list[..p] + list[p + 1..], target))
    ensures target < 0 ==> sorted[0].id == list[p].id
    ensures target >= |list| ==> sorted[|list| - 1].id == list[p].id
  {
    var rest := Without(list, list[p].id);
    WithoutAt(list, p);
    SortingLength(desc, SetKey(list, list[p].id, DropKey(desc, rest, Clamp(target, |rest|))), sorted);
    DragAmongTies(desc, list, p, target, sorted);
  }

  lemma WithoutLast<I>(rest: seq<Entry<I>>, e: Entry<I>, list: seq<Entry<I>>)
    requires list == rest + [e] && forall x :: x in rest ==> x.id != e.id
    ensures Without(list, e.id) == rest
  {
    assert list[..|list| - 1] == rest;
    WithoutAbsent(rest, e.id);
  }

  lemma RekeyLast<I>(rest: seq<Entry<I>>, e: Entry<I>, list: seq<Entry<I>>, key: string)
    requires list == rest + [e] && forall x :: x in rest ==> x.id != e.id
    ensures SetKey(list, e.id, key) == rest + [Entry(e.id, key)]
  {
    assert forall i :: 0 <= i < |rest| ==> rest[i] in rest;
  }

  /**
   An input: notes got the same key k, each as the topmost of a list that did not show the others -
   one had been archived, or they were added offline. A note from below that is dropped between
   two of them goes above them all.
   */
  lemma DropBetweenTwins<I>(twins: seq<Entry<I>>, k: string, below: Entry<I>, index: nat, sorted: seq<Entry<I>>)
    requires 0 < index < |twins| && Key(k) && forall x :: x in twins ==> x.key == k && x.id != below.id
    requires var list := twins + [below];
             IsSorting(true, SetKey(list, below.id, DropKey(true, Without(list, below.id), index)), sorted)
    ensures |sorted| == |twins| + 1 && sorted[0] == Entry(below.id, Between(k, k))
  {
    var e := Entry(below.id, Between(k, k));
    WithoutLast(twins, below, twins + [below]);
    assert twins[index - 1] in twins && twins[index] in twins;
    RekeyLast(twins, below, twins + [below], e.key);
    OneMore(twins, e, sorted);
    KeyOvershoots(k, k);
    assert e in multiset(sorted);
    var j :| 0 <= j < |sorted| && sorted[j] == e;
    LandsAtMost(true, twins, e, sorted, j, 0);
  }

  lemma StrictIsSorted<I>(desc: bool, list: seq<Entry<I>>)
    requires StrictlySorted(desc, list)
    ensures Sorted(desc, list)
  {
    forall i, j | 0 <= i < j < |list| ensures !Shown(desc, list[j].key, list[i].key) {
      ShownAsymmetric(desc, list[i].key, list[j].key);
    }
  }

  lemma StrictNoTies<I>(desc: bool, list: seq<Entry<I>>, index: nat)
    requires StrictlySorted(desc, list)
    ensures !Tied(list, index)
  {
    if 0 < index < |list| {
      LessIrreflexive(list[index].key);
      assert Shown(desc, list[index - 1].key, list[index].key);
    }
  }

  lemma SplicePositions<I>(rest: seq<Entry<I>>, index: nat, e: Entry<I>)
    requires PositionKeys(rest) && Position(e.key) && index <= |rest|
    ensures PositionKeys(Splice(rest, index, e))
  {
    forall x | x in Splice(rest, index, e) ensures Position(x.key) {
      assert x in rest[..index] || x == e || x in rest[index..];
    }
  }

  /** A drop between storable keys gives a strictly sorted list of storable keys. */
  lemma DropKeepsOrder<I>(desc: bool, rest: seq<Entry<I>>, index: nat, id: I)
    requires PositionKeys(rest) && StrictlySorted(desc, rest) && index <= |rest|
    ensures PositionKeys(Splice(rest, index, Entry(id, DropKey(desc, rest, index))))
    ensures StrictlySorted(desc, Splice(rest, index, Entry(id, DropKey(desc, rest, index))))
  {
    var e := Entry(id, DropKey(desc, rest, index));
    StrictIsSorted(desc, rest);
    RoomOfPositions(desc, rest, index);
    StrictNoTies(desc, rest, index);
    DropFits(desc, rest, index);
    SpliceSorted(desc, rest, index, e);
    PositionNeighbours(desc, rest, index);
    BetweenIsPosition(LowerKey(desc, rest, index), UpperKey(desc, rest, index));
    SplicePositions(rest, index, e);
  }

  /** Without ties every drag of stored keys is a splice, whatever the sorting does; the result is again such a list. */
  lemma DragIsSplice<I>(desc: bool, list: seq<Entry<I>>, p: nat, target: int, sorted: seq<Entry<I>>)
    requires p < |list| && UniqueIds(list) && PositionKeys(list) && StrictlySorted(desc, list)
    requires var rest := Without(list, list[p].id);
             IsSorting(desc, SetKey(list, list[p].id, DropKey(desc, rest, Clamp(target, |rest|))), sorted)
    ensures var rest := Without(list, list[p].id);
            var index := Clamp(target, |rest|);
            && sorted == Splice(rest, index, Entry(list[p].id, DropKey(desc, rest, index)))
            && PositionKeys(sorted) && StrictlySorted(desc, sorted)
  {
    var rest := Without(list, list[p].id);
    var index := Clamp(target, |rest|);
    var e := Entry(list[p].id, DropKey(desc, rest, index));
    WithoutSorted(desc, list, p);
    WithoutAt(list, p);
    SpliceContents(list, p, index, e.key);
    DropKeepsOrder(desc, rest, index, e.id);
    SortingUnique(desc, Splice(rest, index, e), sorted);
  }

  // ---- addItemAfter, addItem, and new notes ----

  /**
   An insert, exactly: a new entry keyed between position index-1 and index lands there in every
   sorting if and only if the two neighbours' keys differ. At the top of the notes and at the
   bottom of a checklist there is only one neighbour.
   */
  lemma InsertExact<I>(desc: bool, list: seq<Entry<I>>, index: nat, id: I, sorted: seq<Entry<I>>)
    requires PositionKeys(list) && Sorted(desc, list) && index <= |list|
    requires IsSorting(desc, list + [Entry(id, DropKey(desc, list, index))], sorted)
    ensures index < |sorted|
    ensures sorted[index] == Entry(id, DropKey(desc, list, index)) <==> !Tied(list, index)
  {
    RoomOfPositions(desc, list, index);
    LandsExact(desc, list, index, Entry(id, DropKey(desc, list, index)), sorted);
  }

  /**
   Without ties: a new entry keyed between position index-1 and index, appended anywhere in the
   unsorted collection and then sorted, lands exactly there: directly after an item (addItemAfter),
   at the bottom of an ascending list (addItem) or at the top of a descending one (new notes).
   */
  lemma InsertIsSplice<I>(desc: bool, list: seq<Entry<I>>, index: nat, id: I, sorted: seq<Entry<I>>)
    requires PositionKeys(list) && StrictlySorted(desc, list) && index <= |list|
    requires IsSorting(desc, list + [Entry(id, DropKey(desc, list, index))], sorted)
    ensures sorted == Splice(list, index, Entry(id, DropKey(desc, list, index)))
    ensures PositionKeys(sorted) && StrictlySorted(desc, sorted)
  {
    var e := Entry(id, DropKey(desc, list, index));
    DropKeepsOrder(desc, list, index, id);
    SpliceMultiset(list, index, e);
    SortingUnique(desc, Splice(list, index, e), sorted);
  }

  lemma KeyFits<I>(desc: bool, list: seq<Entry<I>>, index: nat, id: I)
    requires PositionKeys(list) && index <= |list|
    ensures PositionKeys(Splice(list, index, Entry(id, DropKey(desc, list, index))))
  {
    PositionNeighbours(desc, list, index);
    BetweenIsPosition(LowerKey(desc, list, index), UpperKey(desc, list, index));
    SplicePositions(list, index, Entry(id, DropKey(desc, list, index)));
  }

  /** The list after inserting at each of the given places in turn. */
  function InsertAll<I(==)>(desc: bool, list: seq<Entry<I>>, inserts: seq<(int, I)>): (r: seq<Entry<I>>)
    requires PositionKeys(list)
    ensures PositionKeys(r)
    decreases |inserts|
  {
    if inserts == [] then list
    else
      var index := Clamp(inserts[0].0, |list|);
      KeyFits(desc, list, index, inserts[0].1);
      InsertAll(desc, Splice(list, index, Entry(inserts[0].1, DropKey(desc, list, index))), inserts[1..])
  }

  /**
   Any number of inserts, each keyed only from its two neighbours, leaves the list strictly
   sorted by distinct storable keys, starting from a sorted list - the empty one included.
   */
  lemma {:induction false} InsertionRun<I>(desc: bool, list: seq<Entry<I>>, inserts: seq<(int, I)>)
    requires PositionKeys(list) && StrictlySorted(desc, list)
    ensures StrictlySorted(desc, InsertAll(desc, list, inserts))
    ensures |InsertAll(desc, list, inserts)| == |list| + |inserts|
    ensures forall e :: e in list ==> e in InsertAll(desc, list, inserts)
    ensures forall k :: 0 <= k < |inserts| ==> exists e :: e in InsertAll(desc, list, inserts) && e.id == inserts[k].1
    decreases |inserts|
  {
    if inserts != [] {
      var index := Clamp(inserts[0].0, |list|);
      var e := Entry(inserts[0].1, DropKey(desc, list, index));
      DropKeepsOrder(desc, list, index, e.id);
      InsertionRun(desc, Splice(list, index, e), inserts[1..]);
      SpliceMembers(list, index, e);
      assert forall k :: 1 <= k < |inserts| ==> inserts[k] == inserts[1..][k - 1];
    }
  }
}
