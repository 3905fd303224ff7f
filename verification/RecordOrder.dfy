/**
  The lexicographic order of records and of record lists that decides a simultaneous probe
  (sections 8.2 and 8.2.1 of RFC 6762).
 */
module RecordOrder {
  import opened Bytes

  datatype Order = Earlier | Equal | Later

  function Flip(o: Order): Order {
    match o
    case Earlier => Later
    case Equal => Equal
    case Later => Earlier
  }

  /** What is compared of a record: class, type, and data with its names uncompressed. */
  datatype Key = Key(klass: nat, rtype: nat, rdata: seq<byte>)

  function CompareNat(a: nat, b: nat): Order {
    if a < b then Earlier else if a > b then Later else Equal
  }

  /** Byte strings from the first byte on; of two that agree, the longer one is later. */
  function CompareBytes(a: seq<byte>, b: seq<byte>): Order {
    if a == [] || b == [] then CompareNat(|a|, |b|)
    else if a[0] != b[0] then CompareNat(a[0], b[0])
    else CompareBytes(a[1..], b[1..])
  }

  function Compare(a: Key, b: Key): Order {
    if a.klass != b.klass then CompareNat(a.klass, b.klass)
    else if a.rtype != b.rtype then CompareNat(a.rtype, b.rtype)
    else CompareBytes(a.rdata, b.rdata)
  }

  // ----- A total order

  lemma {:induction false} BytesEqual(a: seq<byte>, b: seq<byte>)
    ensures CompareBytes(a, b) == Equal <==> a == b
  {
    if a != [] && b != [] {
      BytesEqual(a[1..], b[1..]);
      assert a == [a[0]] + a[1..] && b == [b[0]] + b[1..];
    }
  }

  lemma {:induction false} BytesFlip(a: seq<byte>, b: seq<byte>)
    ensures CompareBytes(b, a) == Flip(CompareBytes(a, b))
  {
    if a != [] && b != [] {
      BytesFlip(a[1..], b[1..]);
    }
  }

  lemma {:induction false} BytesTransitive(a: seq<byte>, b: seq<byte>, c: seq<byte>)
    requires CompareBytes(a, b) != Later && CompareBytes(b, c) != Later
    ensures CompareBytes(a, c) != Later
  {
    if a != [] && b != [] && c != [] {
      if a[0] == b[0] == c[0] {
        BytesTransitive(a[1..], b[1..], c[1..]);
      }
    }
  }

  /** Only equal keys compare equal, and swapping the sides swaps the outcome. */
  lemma CompareTotal(a: Key, b: Key)
    ensures Compare(a, b) == Equal <==> a == b
    ensures Compare(b, a) == Flip(Compare(a, b))
  {
    BytesEqual(a.rdata, b.rdata);
    BytesFlip(a.rdata, b.rdata);
  }

  lemma CompareTransitive(a: Key, b: Key, c: Key)
    requires Compare(a, b) != Later && Compare(b, c) != Later
    ensures Compare(a, c) != Later
  {
    if a.klass == b.klass == c.klass && a.rtype == b.rtype == c.rtype {
      BytesTransitive(a.rdata, b.rdata, c.rdata);
    }
  }

  // ----- Sorting

  ghost predicate Sorted(ks: seq<Key>) {
    forall i, j :: 0 <= i < j < |ks| ==> Compare(ks[i], ks[j]) != Later
  }

  /** Puts `k` in front of the first key that is later. */
  function Insert(ks: seq<Key>, k: Key): (r: seq<Key>)
    ensures |r| == |ks| + 1
  {
    if ks == [] then [k]
    else if Compare(ks[0], k) == Later then [k] + ks
    else [ks[0]] + Insert(ks[1..], k)
  }

  lemma {:induction false} InsertKeeps(ks: seq<Key>, k: Key)
    ensures multiset(Insert(ks, k)) == multiset(ks) + multiset{k}
  {
    if ks != [] {
      InsertKeeps(ks[1..], k);
      assert ks == [ks[0]] + ks[1..];
    }
  }

  /** A key in front of keys that are not earlier. */
  lemma SortedCons(k: Key, ks: seq<Key>)
    requires Sorted(ks) && forall j :: 0 <= j < |ks| ==> Compare(k, ks[j]) != Later
    ensures Sorted([k] + ks)
  {
    hide Compare;
    var r := [k] + ks;
    forall i, j | 0 <= i < j < |r| ensures Compare(r[i], r[j]) != Later {
      assert r[j] == ks[j - 1] && (i > 0 ==> r[i] == ks[i - 1]);
    }
  }

  lemma InsertFrom(ks: seq<Key>, k: Key, j: nat)
    requires j < |Insert(ks, k)|
    ensures Insert(ks, k)[j] == k || Insert(ks, k)[j] in ks
  {
    hide Compare, Insert;
    InsertKeeps(ks, k);
    assert Insert(ks, k)[j] in multiset(Insert(ks, k));
  }

  lemma {:induction false} InsertSorted(ks: seq<Key>, k: Key)
    requires Sorted(ks)
    ensures Sorted(Insert(ks, k))
  {
    hide Compare;
    if ks != [] {
      CompareTotal(ks[0], k);
      if Compare(ks[0], k) == Later {
        forall j | 0 <= j < |ks| ensures Compare(k, ks[j]) != Later {
          if j > 0 {
            CompareTransitive(k, ks[0], ks[j]);
          }
        }
        SortedCons(k, ks);
      } else {
        var rest := Insert(ks[1..], k);
        InsertSorted(ks[1..], k);
        forall j | 0 <= j < |rest| ensures Compare(ks[0], rest[j]) != Later {
          InsertFrom(ks[1..], k, j);
        }
        SortedCons(ks[0], rest);
      }
    }
  }

  /** The keys of one side, in the order in which they are found in the packet, one insertion each. */
  function SortFrom(done: seq<Key>, ks: seq<Key>): (r: seq<Key>)
    decreases |ks|
  {
    if ks == [] then done else SortFrom(Insert(done, ks[0]), ks[1..])
  }

  lemma {:induction false} SortFromSorts(done: seq<Key>, ks: seq<Key>)
    requires Sorted(done)
    ensures Sorted(SortFrom(done, ks))
    ensures multiset(SortFrom(done, ks)) == multiset(done) + multiset(ks)
    decreases |ks|
  {
    if ks != [] {
      InsertSorted(done, ks[0]);
      InsertKeeps(done, ks[0]);
      SortFromSorts(Insert(done, ks[0]), ks[1..]);
      assert ks == [ks[0]] + ks[1..];
    }
  }

  lemma SameLeast(a: seq<Key>, b: seq<Key>)
    requires Sorted(a) && Sorted(b) && multiset(a) == multiset(b) && a != [] && b != []
    ensures a[0] == b[0]
  {
    hide Compare;
    assert a[0] in multiset(b) && b[0] in multiset(a);
    var i :| 0 <= i < |b| && b[i] == a[0];
    var j :| 0 <= j < |a| && a[j] == b[0];
    CompareTotal(a[0], b[0]);
    if i > 0 && j > 0 {
      assert Compare(b[0], b[i]) != Later && Compare(a[0], a[j]) != Later;
    }
  }

  lemma TailMultiset(a: seq<Key>)
    requires a != []
    ensures multiset(a[1..]) == multiset(a) - multiset{a[0]}
  {
    assert a == [a[0]] + a[1..];
  }

  /** There is one sorted arrangement of a multiset of keys. */
  lemma {:induction false} SortedUnique(a: seq<Key>, b: seq<Key>)
    requires Sorted(a) && Sorted(b) && multiset(a) == multiset(b)
    ensures a == b
  {
    hide Compare;
    assert |a| == |multiset(a)| == |multiset(b)| == |b|;
    if a != [] {
      SameLeast(a, b);
      TailMultiset(a);
      TailMultiset(b);
      SortedUnique(a[1..], b[1..]);
      assert a == [a[0]] + a[1..] && b == [b[0]] + b[1..];
    }
  }

  // ----- The verdict

  /** Lists pairwise; of two that agree, the one with more records is later. */
  function CompareLists(a: seq<Key>, b: seq<Key>): Order {
    if a == [] || b == [] then CompareNat(|a|, |b|)
    else if Compare(a[0], b[0]) != Equal then Compare(a[0], b[0])
    else CompareLists(a[1..], b[1..])
  }

  /** The verdict on the records found on the two sides, in packet order: later wins. */
  function Verdict(mine: seq<Key>, theirs: seq<Key>): Order {
    CompareLists(SortFrom([], mine), SortFrom([], theirs))
  }

  lemma {:induction false} ListsFlip(a: seq<Key>, b: seq<Key>)
    ensures CompareLists(b, a) == Flip(CompareLists(a, b))
    ensures CompareLists(a, b) == Equal <==> a == b
  {
    if a != [] && b != [] {
      CompareTotal(a[0], b[0]);
      ListsFlip(a[1..], b[1..]);
      assert a == [a[0]] + a[1..] && b == [b[0]] + b[1..];
    }
  }

  /**
    The verdict depends only on the two multisets of records, not on the order in the packets;
    it is the comparison of the sorted lists; swapping the hosts swaps win and lose; and it is a
    tie exactly when both hosts have the same records.
   */
  lemma VerdictIsFair(mine: seq<Key>, theirs: seq<Key>, mine': seq<Key>, theirs': seq<Key>)
    requires multiset(mine) == multiset(mine') && multiset(theirs) == multiset(theirs')
    ensures Verdict(mine, theirs) == Verdict(mine', theirs')
    ensures forall a, b :: Sorted(a) && Sorted(b) && multiset(a) == multiset(mine) && multiset(b) == multiset(theirs)
              ==> Verdict(mine, theirs) == CompareLists(a, b)
    ensures Verdict(theirs, mine) == Flip(Verdict(mine, theirs))
    ensures Verdict(mine, theirs) == Equal <==> multiset(mine) == multiset(theirs)
  {
    hide Insert, CompareLists, SortFrom;
    SortFromSorts([], mine);
    SortFromSorts([], theirs);
    SortFromSorts([], mine');
    SortFromSorts([], theirs');
    var a, b := SortFrom([], mine), SortFrom([], theirs);
    SortedUnique(a, SortFrom([], mine'));
    SortedUnique(b, SortFrom([], theirs'));
    forall x, y | Sorted(x) && Sorted(y) && multiset(x) == multiset(mine) && multiset(y) == multiset(theirs)
      ensures Verdict(mine, theirs) == CompareLists(x, y)
    {
      SortedUnique(a, x);
      SortedUnique(b, y);
    }
    ListsFlip(a, b);
    if multiset(mine) == multiset(theirs) {
      SortedUnique(a, b);
    }
  }

  // ----- The order of the standard

  /** The strings agree in front of place `i`, and `a` has the greater byte there. */
  predicate GreaterAt(a: seq<byte>, b: seq<byte>, i: nat) {
    i < |a| && i < |b| && a[..i] == b[..i] && a[i] > b[i]
  }

  /** The first difference has the greater byte in `a`, or there is none and `a` goes on where `b` has ended. */
  ghost predicate DataLater(a: seq<byte>, b: seq<byte>) {
    b < a || exists i :: GreaterAt(a, b, i)
  }

  /** Section 8.2 of RFC 6762: the greater class, else the greater type, else the later data. */
  ghost predicate KeyLater(a: Key, b: Key) {
    || a.klass > b.klass
    || (a.klass == b.klass && a.rtype > b.rtype)
    || (a.klass == b.klass && a.rtype == b.rtype && DataLater(a.rdata, b.rdata))
  }

  /** The lists agree in front of place `i`, and `a` has the later record there. */
  ghost predicate LaterAt(a: seq<Key>, b: seq<Key>, i: nat) {
    i < |a| && i < |b| && a[..i] == b[..i] && KeyLater(a[i], b[i])
  }

  /** Section 8.2.1: the first record that differs is later in `a`, or there is none and `a` has more records. */
  ghost predicate ListLater(a: seq<Key>, b: seq<Key>) {
    b < a || exists i :: LaterAt(a, b, i)
  }

  /** The records `ks`, none behind one that is later. */
  ghost predicate Arrangement(a: seq<Key>, ks: seq<Key>) {
    multiset(a) == multiset(ks) && forall i, j :: 0 <= i < j < |a| ==> !KeyLater(a[i], a[j])
  }

  lemma SameFirst<T>(a: seq<T>, b: seq<T>, i: nat)
    ensures i <= |a| && i <= |b| && a[..i] == b[..i] && i > 0 ==> a[0] == b[0]
  {
    if 0 < i <= |a| && i <= |b| {
      assert a[..i][0] == a[0] && b[..i][0] == b[0];
    }
  }

  lemma {:induction false} BytesLater(a: seq<byte>, b: seq<byte>)
    ensures CompareBytes(a, b) == Later <==> DataLater(a, b)
  {
    if a != [] && b != [] {
      var x, y := a[1..], b[1..];
      assert a == [a[0]] + x && b == [b[0]] + y;
      if a[0] == b[0] {
        BytesLater(x, y);
        if i: nat :| GreaterAt(x, y, i) {
          assert a[..i + 1] == [a[0]] + x[..i] && b[..i + 1] == [b[0]] + y[..i];
          assert GreaterAt(a, b, i + 1);
        }
        if i: nat :| GreaterAt(a, b, i) {
          assert i > 0;
          assert x[..i - 1] == a[..i][1..] && y[..i - 1] == b[..i][1..];
          assert GreaterAt(x, y, i - 1);
        }
      } else {
        assert a[0] > b[0] ==> GreaterAt(a, b, 0);
        forall i: nat ensures GreaterAt(a, b, i) ==> i == 0 {
          SameFirst(a, b, i);
        }
      }
    }
  }

  /** What the comparison of two records computes. */
  lemma CompareMeans(a: Key, b: Key)
    ensures Compare(a, b) == Later <==> KeyLater(a, b)
    ensures Compare(a, b) == Earlier <==> KeyLater(b, a)
  {
    hide DataLater, CompareBytes;
    BytesLater(a.rdata, b.rdata);
    BytesLater(b.rdata, a.rdata);
    BytesFlip(a.rdata, b.rdata);
  }

  lemma {:induction false} ListsLater(a: seq<Key>, b: seq<Key>)
    ensures CompareLists(a, b) == Later <==> ListLater(a, b)
  {
    hide Compare, KeyLater;
    if a != [] && b != [] {
      var x, y := a[1..], b[1..];
      assert a == [a[0]] + x && b == [b[0]] + y;
      CompareMeans(a[0], b[0]);
      CompareTotal(a[0], b[0]);
      if a[0] == b[0] {
        ListsLater(x, y);
        if i: nat :| LaterAt(x, y, i) {
          assert a[..i + 1] == [a[0]] + x[..i] && b[..i + 1] == [b[0]] + y[..i];
          assert LaterAt(a, b, i + 1);
        }
        if i: nat :| LaterAt(a, b, i) {
          assert i > 0;
          assert x[..i - 1] == a[..i][1..] && y[..i - 1] == b[..i][1..];
          assert LaterAt(x, y, i - 1);
        }
      } else {
        assert KeyLater(a[0], b[0]) ==> LaterAt(a, b, 0);
        forall i: nat ensures LaterAt(a, b, i) ==> i == 0 {
          SameFirst(a, b, i);
        }
      }
    }
  }

  lemma ArrangementIs(a: seq<Key>, ks: seq<Key>)
    ensures Arrangement(a, ks) <==> a == SortFrom([], ks)
  {
    hide Compare, KeyLater, SortFrom;
    SortFromSorts([], ks);
    forall x, y ensures Compare(x, y) == Later <==> KeyLater(x, y) {
      CompareMeans(x, y);
    }
    if Arrangement(a, ks) {
      SortedUnique(a, SortFrom([], ks));
    }
  }

  /**
    The verdict in the words of the standard: each side's records have one sorted arrangement, and
    the side whose arrangement is later wins.
   */
  lemma VerdictMeans(mine: seq<Key>, theirs: seq<Key>) returns (a: seq<Key>, b: seq<Key>)
    ensures forall x :: Arrangement(x, mine) <==> x == a
    ensures forall y :: Arrangement(y, theirs) <==> y == b
    ensures Verdict(mine, theirs) == Later <==> ListLater(a, b)
    ensures Verdict(mine, theirs) == Earlier <==> ListLater(b, a)
    ensures Verdict(mine, theirs) == Equal <==> a == b
  {
    hide SortFrom, CompareLists, ListLater, Arrangement;
    a, b := SortFrom([], mine), SortFrom([], theirs);
    forall x ensures Arrangement(x, mine) <==> x == a {
      ArrangementIs(x, mine);
    }
    forall y ensures Arrangement(y, theirs) <==> y == b {
      ArrangementIs(y, theirs);
    }
    ListsLater(a, b);
    ListsLater(b, a);
    ListsFlip(a, b);
  }
}
