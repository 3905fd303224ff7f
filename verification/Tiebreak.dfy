/**
  Simultaneous-probe tiebreaking on packets: comparing records, sorting the ones that answer a
  probed name, and the verdict.
 */
module Tiebreak {
  import opened Bytes
  import opened NameReader
  import opened NameWriter
  import opened Records
  import opened SelfParse
  import opened RecordOrder
  import opened DomainEquality

  const MAX_ANSWERS: nat := 5

  /** Record data byte by byte; bytes past the end of the packet read as zero. */
  function RawData(p: seq<byte>, off: nat, len: nat): (s: seq<byte>)
    ensures |s| == len
  {
    seq<byte>(len, i requires 0 <= i < len => GetAt(p, U16(off + i)))
  }

  /** Places count modulo 2^16, as the offsets of the original do. */
  lemma DataByte(p: seq<byte>, off: nat, len: nat, i: nat)
    requires i < len
    ensures var at := (off + i) % 0x1_0000; RawData(p, off, len)[i] == if at < |p| then p[at] else 0
  {
    assert RawData(p, off, len)[i] == GetAt(p, U16(off + i));
  }

  /** The key of a record in its packet; the name in a service record is uncompressed first. */
  function KeyOf(p: seq<byte>, a: Answer): (k: Option<Key>) {
    if a.rtype != TYPE_SRV then Some(Key(a.klass, a.rtype, RawData(p, a.rdOffset, a.rdLength)))
    else
      var r := ReadName(p, U16(a.rdOffset + 6));
      if r.end == READNAME_ERROR then None
      else Some(Key(a.klass, a.rtype, RawData(p, a.rdOffset, 6) + r.name))
  }

  /** What the comparison looks at before it reads a name: all but the name of a service record. */
  function Lead(p: seq<byte>, a: Answer): (k: Key) {
    Key(a.klass, a.rtype, RawData(p, a.rdOffset, if a.rtype == TYPE_SRV then 6 else a.rdLength))
  }

  lemma CompareTail(a: seq<byte>, b: seq<byte>, i: nat)
    requires i < |a| && i < |b|
    ensures a[i] == b[i] ==> CompareBytes(a[i..], b[i..]) == CompareBytes(a[i + 1..], b[i + 1..])
    ensures a[i] != b[i] ==> CompareBytes(a[i..], b[i..]) == CompareNat(a[i], b[i])
  {
    assert a[i..][1..] == a[i + 1..] && b[i..][1..] == b[i + 1..];
  }

  lemma CompareEnd(a: seq<byte>, b: seq<byte>, i: nat)
    requires i <= |a| && i <= |b| && (i == |a| || i == |b|)
    ensures CompareBytes(a[i..], b[i..]) == CompareNat(|a|, |b|)
  {
  }

  /** The byte loops of the comparison, over bytes still in their packets. */
  method CompareData(p: seq<byte>, pOff: nat, pLen: nat, q: seq<byte>, qOff: nat, qLen: nat) returns (o: Order)
    ensures o == CompareBytes(RawData(p, pOff, pLen), RawData(q, qOff, qLen))
  {
    hide CompareBytes;
    ghost var x, y := RawData(p, pOff, pLen), RawData(q, qOff, qLen);
    var len := if pLen < qLen then pLen else qLen;
    for i := 0 to len
      invariant CompareBytes(x, y) == CompareBytes(x[i..], y[i..])
    {
      CompareTail(x, y, i);
      var a, b := GetAt(p, U16(pOff + i)), GetAt(q, U16(qOff + i));
      if a != b {
        return if a > b then Later else Earlier;
      }
    }
    CompareEnd(x, y, len);
    return CompareNat(pLen, qLen);
  }

  method CompareNames(x: seq<byte>, y: seq<byte>) returns (o: Order)
    ensures o == CompareBytes(x, y)
  {
    hide CompareBytes;
    var len := if |x| < |y| then |x| else |y|;
    for i := 0 to len
      invariant CompareBytes(x, y) == CompareBytes(x[i..], y[i..])
    {
      CompareTail(x, y, i);
      if x[i] != y[i] {
        return if x[i] > y[i] then Later else Earlier;
      }
    }
    CompareEnd(x, y, len);
    return CompareNat(|x|, |y|);
  }

  lemma {:induction false} CompareConcat(a: seq<byte>, b: seq<byte>, x: seq<byte>, y: seq<byte>)
    requires |a| == |b|
    ensures CompareBytes(a + x, b + y) == if a == b then CompareBytes(x, y) else CompareBytes(a, b)
  {
    if a == [] {
      assert a + x == x && b + y == y;
    } else {
      CompareConcat(a[1..], b[1..], x, y);
      assert (a + x)[1..] == a[1..] + x && (b + y)[1..] == b[1..] + y;
      assert a == [a[0]] + a[1..] && b == [b[0]] + b[1..];
    }
  }

  /**
    The order of two records: of their keys, or of what comes before the names where that decides;
    none where a name that has to be looked at cannot be read.
   */
  function CompareIn(p: seq<byte>, a: Answer, q: seq<byte>, b: Answer): (o: Option<Order>) {
    if Lead(p, a) != Lead(q, b) then Some(Compare(Lead(p, a), Lead(q, b)))
    else if KeyOf(p, a).None? || KeyOf(q, b).None? then None
    else Some(Compare(KeyOf(p, a).value, KeyOf(q, b).value))
  }

  /** Where both keys are there, the order is that of the keys. */
  lemma CompareInIsOrder(p: seq<byte>, a: Answer, q: seq<byte>, b: Answer)
    requires KeyOf(p, a).Some? && KeyOf(q, b).Some?
    ensures CompareIn(p, a, q, b) == Some(Compare(KeyOf(p, a).value, KeyOf(q, b).value))
  {
    hide ReadName, RawData, CompareBytes;
    if a.rtype == b.rtype == TYPE_SRV {
      var m, n := ReadName(p, U16(a.rdOffset + 6)), ReadName(q, U16(b.rdOffset + 6));
      CompareConcat(RawData(p, a.rdOffset, 6), RawData(q, b.rdOffset, 6), m.name, n.name);
    }
  }

  /**
    The comparison fails exactly for two service records that differ in nothing before their names,
    one of them unreadable.
   */
  lemma CompareFails(p: seq<byte>, a: Answer, q: seq<byte>, b: Answer)
    ensures CompareIn(p, a, q, b).None? <==>
            && a.klass == b.klass && a.rtype == b.rtype == 33
            && RawData(p, a.rdOffset, 6) == RawData(q, b.rdOffset, 6)
            && (ReadName(p, U16(a.rdOffset + 6)).end == 0xFFFF || ReadName(q, U16(b.rdOffset + 6)).end == 0xFFFF)
    ensures Lead(p, a) != Lead(q, b) ==> CompareIn(p, a, q, b) == Some(Compare(Lead(p, a), Lead(q, b)))
  {
    hide ReadName, RawData;
  }

  /** `mdns_lexicographical_comparison`. */
  method CompareRecords(p: seq<byte>, a: Answer, q: seq<byte>, b: Answer) returns (status: Status, o: Order)
    ensures status == if CompareIn(p, a, q, b).None? then ErrVal else Ok
    ensures status == Ok ==> CompareIn(p, a, q, b) == Some(o)
  {
    hide ReadName, RawData, CompareBytes;
    if a.klass != b.klass {
      return Ok, if a.klass > b.klass then Later else Earlier;
    }
    if a.rtype != b.rtype {
      return Ok, if a.rtype > b.rtype then Later else Earlier;
    }
    if a.rtype != TYPE_SRV {
      o := CompareData(p, a.rdOffset, a.rdLength, q, b.rdOffset, b.rdLength);
      BytesEqual(RawData(p, a.rdOffset, a.rdLength), RawData(q, b.rdOffset, b.rdLength));
      return Ok, o;
    }
    o := CompareData(p, a.rdOffset, 6, q, b.rdOffset, 6);
    var m, n := ReadName(p, U16(a.rdOffset + 6)), ReadName(q, U16(b.rdOffset + 6));
    CompareConcat(RawData(p, a.rdOffset, 6), RawData(q, b.rdOffset, 6), m.name, n.name);
    BytesEqual(RawData(p, a.rdOffset, 6), RawData(q, b.rdOffset, 6));
    if o != Equal {
      return Ok, o;
    }
    if m.end == READNAME_ERROR || n.end == READNAME_ERROR {
      return ErrVal, Equal;
    }
    o := CompareNames(m.name, n.name);
    return Ok, o;
  }

  // ----- The sorted list of offsets

  /** The key of the record at an offset, if there is one that can be decoded. */
  function KeyAt(p: seq<byte>, off: nat): (k: Option<Key>) {
    if off >= U16_SIZE then None
    else
      var r := ReadAnswerAt(p, off);
      if r.None? then None else KeyOf(p, r.value)
  }

  predicate Decodable(p: seq<byte>, offs: seq<nat>) {
    forall i :: 0 <= i < |offs| ==> KeyAt(p, offs[i]).Some?
  }

  function Keys(p: seq<byte>, offs: seq<nat>): (ks: seq<Key>)
    requires Decodable(p, offs)
    ensures |ks| == |offs|
    ensures forall i :: 0 <= i < |offs| ==> ks[i] == KeyAt(p, offs[i]).value
  {
    seq(|offs|, i requires 0 <= i < |offs| && KeyAt(p, offs[i]).Some? => KeyAt(p, offs[i]).value)
  }

  lemma {:induction false} InsertAt(ks: seq<Key>, k: Key, pos: nat)
    requires pos <= |ks| && (forall m :: 0 <= m < pos ==> Compare(ks[m], k) != Later)
    requires pos < |ks| ==> Compare(ks[pos], k) == Later
    ensures Insert(ks, k) == ks[..pos] + [k] + ks[pos..]
  {
    if pos > 0 {
      InsertAt(ks[1..], k, pos - 1);
    }
  }

  /** The loop that opens a place in the list. */
  method ShiftUp(list: array<nat>, i: nat, size: nat)
    requires i <= size && size + 1 < list.Length
    modifies list
    ensures list[..i] == old(list[..i]) && list[i + 1..size + 1] == old(list[i..size])
  {
    var j := size + 1;
    while j > i
      invariant i <= j <= size + 1
      invariant forall m :: 0 <= m <= j && m < list.Length ==> list[m] == old(list[m])
      invariant forall m :: j < m <= size + 1 ==> list[m] == old(list[m - 1])
    {
      list[j] := list[j - 1];
      j := j - 1;
    }
  }

  /** Where the new record goes: in front of the first listed one that is later. */
  function Place(p: seq<byte>, list: seq<nat>, i: nat, a: Answer): (pos: Option<nat>)
    requires i <= |list|
    ensures pos.Some? ==> i <= pos.value <= |list|
    decreases |list| - i
  {
    if i == |list| then Some(i)
    else if list[i] >= U16_SIZE then None
    else
      var r := ReadAnswerAt(p, list[i]);
      if r.None? then None
      else
        var o := CompareIn(p, r.value, p, a);
        if o.None? then None else if o.value == Later then Some(i) else Place(p, list, i + 1, a)
  }

  /** The list with one more record; none if it is full or a comparison fails. */
  function Push(p: seq<byte>, list: seq<nat>, off: nat, a: Answer): (r: Option<seq<nat>>)
    ensures r.Some? ==> |r.value| == |list| + 1 < MAX_ANSWERS
  {
    if |list| + 1 >= MAX_ANSWERS then None
    else
      var pos := Place(p, list, 0, a);
      if pos.None? then None else Some(list[..pos.value] + [off] + list[pos.value..])
  }

  /** `mdns_push_answer_to_sorted_list`: one step of insertion sort on the offsets of the records. */
  method PushSorted(p: seq<byte>, list: array<nat>, size: nat, off: nat, a: Answer) returns (status: Status, size': nat)
    requires list.Length == MAX_ANSWERS && size < MAX_ANSWERS
    modifies list
    ensures status == Ok <==> Push(p, old(list[..size]), off, a).Some?
    ensures status == Ok ==> size' < MAX_ANSWERS && Push(p, old(list[..size]), off, a) == Some(list[..size'])
    ensures status != Ok ==> list[..] == old(list[..]) && size' == size
  {
    hide ReadAnswerAt, CompareIn;
    if size + 1 >= MAX_ANSWERS {
      return ErrMem, size;
    }
    ghost var offs := list[..size];
    var pos := size;
    var i := 0;
    while i < size
      invariant 0 <= i <= size && pos == size && list[..] == old(list[..])
      invariant Place(p, offs, 0, a) == Place(p, offs, i, a)
    {
      if list[i] >= U16_SIZE {
        return ErrVal, size;
      }
      var r := ReadAnswerAt(p, list[i]);
      if r.None? {
        return ErrVal, size;
      }
      var s, o := CompareRecords(p, r.value, p, a);
      if s != Ok {
        return s, size;
      }
      if o == Later {
        pos := i;
        break;
      }
      i := i + 1;
    }
    assert Place(p, offs, 0, a) == Some(pos);
    if pos < size {
      ShiftUp(list, pos, size);
    }
    list[pos] := off;
    status, size' := Ok, size + 1;
    assert list[..pos] == offs[..pos] && list[pos + 1..size'] == offs[pos..];
    assert list[..size'] == list[..pos] + [list[pos]] + list[pos + 1..size'];
  }

  /** The place found is that of the key among the keys. */
  lemma {:induction false} PlaceOfKey(p: seq<byte>, list: seq<nat>, i: nat, a: Answer, k: Key)
    requires i <= |list| && Decodable(p, list) && KeyOf(p, a) == Some(k)
    requires forall m :: 0 <= m < i ==> Compare(Keys(p, list)[m], k) != Later
    ensures var pos := Place(p, list, i, a);
            && pos.Some?
            && (forall m :: 0 <= m < pos.value ==> Compare(Keys(p, list)[m], k) != Later)
            && (pos.value < |list| ==> Compare(Keys(p, list)[pos.value], k) == Later)
    decreases |list| - i
  {
    hide KeyOf, CompareIn, ReadAnswerAt, Compare, Keys;
    if i < |list| {
      assert KeyAt(p, list[i]).Some?;
      var r := ReadAnswerAt(p, list[i]).value;
      CompareInIsOrder(p, r, p, a);
      if CompareIn(p, r, p, a) != Some(Later) {
        PlaceOfKey(p, list, i + 1, a, k);
      }
    }
  }

  /** Pushing a record inserts its key. */
  lemma PushInserts(p: seq<byte>, list: seq<nat>, off: nat, a: Answer)
    requires |list| + 1 < MAX_ANSWERS && Decodable(p, list)
    requires off < U16_SIZE && ReadAnswerAt(p, off) == Some(a) && KeyOf(p, a).Some?
    ensures var r := Push(p, list, off, a);
            && r.Some? && Decodable(p, r.value)
            && Keys(p, r.value) == Insert(Keys(p, list), KeyOf(p, a).value)
  {
    hide KeyOf, ReadAnswerAt, Compare, Insert, Place, Keys, Decodable;
    PlaceOfKey(p, list, 0, a, KeyOf(p, a).value);
    KeysInsert(p, list, off, Place(p, list, 0, a).value);
  }

  lemma ElementsInserted<T>(s: seq<T>, x: T, pos: nat, i: nat)
    requires pos <= |s| && i <= |s|
    ensures (s[..pos] + [x] + s[pos..])[i] == if i < pos then s[i] else if i == pos then x else s[i - 1]
  {
  }

  lemma DecodableInsert(p: seq<byte>, offs: seq<nat>, off: nat, pos: nat)
    requires Decodable(p, offs) && KeyAt(p, off).Some? && pos <= |offs|
    ensures Decodable(p, offs[..pos] + [off] + offs[pos..])
  {
    hide KeyAt;
    var all := offs[..pos] + [off] + offs[pos..];
    forall i | 0 <= i < |all| ensures KeyAt(p, all[i]).Some? {
      ElementsInserted(offs, off, pos, i);
    }
  }

  /** Inserting an offset inserts its key. */
  lemma KeysInsert(p: seq<byte>, offs: seq<nat>, off: nat, pos: nat)
    requires Decodable(p, offs) && KeyAt(p, off).Some? && pos <= |offs|
    requires forall m :: 0 <= m < pos ==> Compare(Keys(p, offs)[m], KeyAt(p, off).value) != Later
    requires pos < |offs| ==> Compare(Keys(p, offs)[pos], KeyAt(p, off).value) == Later
    ensures var all := offs[..pos] + [off] + offs[pos..];
            Decodable(p, all) && Keys(p, all) == Insert(Keys(p, offs), KeyAt(p, off).value)
  {
    hide KeyAt, Compare, Insert, Keys, Decodable;
    DecodableInsert(p, offs, off, pos);
    var all, ks, k := offs[..pos] + [off] + offs[pos..], Keys(p, offs), KeyAt(p, off).value;
    InsertAt(ks, k, pos);
    var ks' := ks[..pos] + [k] + ks[pos..];
    forall i | 0 <= i < |all| ensures Keys(p, all)[i] == ks'[i] {
      ElementsInserted(offs, off, pos, i);
      ElementsInserted(ks, k, pos, i);
    }
  }

  // ----- The records that answer a question

  /** `mdns_is_answer_to_question`. */
  predicate Answers(q: Question, a: Answer) {
    (q.rtype == TYPE_ANY || q.rtype == a.rtype) && DomainEq(q.domain, a.domain)
  }

  /** Offsets of the records among the next `n` that answer `q`, in packet order; none if one cannot be read. */
  function Matching(p: seq<byte>, off: nat, n: nat, q: Question): (r: Option<seq<nat>>)
    requires off < U16_SIZE
    decreases n
  {
    if n == 0 then Some([])
    else
      var a := ReadAnswerAt(p, off);
      if a.None? then None
      else
        var rest := Matching(p, a.value.next, n - 1, q);
        if rest.None? then None
        else Some((if Answers(q, a.value) then [off] else []) + rest.value)
  }

  /** The elements with a mark, in their order. */
  function Marked<T>(xs: seq<T>, marks: seq<bool>): (r: seq<T>)
    requires |xs| == |marks|
  {
    if xs == [] then [] else (if marks[0] then [xs[0]] else []) + Marked(xs[1..], marks[1..])
  }

  /** Record `i` of a section begins where the one before it ends, and answers a question for all types or its own. */
  lemma {:induction false} MatchingMeans(p: seq<byte>, off: nat, n: nat, q: Question)
    requires |p| <= UDP_PAYLOAD_MAX && off < U16_SIZE
    ensures Matching(p, off, n, q).Some? <==> ReadAnswers(p, off, n).Some?
    ensures ReadAnswers(p, off, n).Some? ==>
              var items := ReadAnswers(p, off, n).value.items;
              Matching(p, off, n, q).value == Marked(Starts(off, items), Fitting(items, q))
    decreases n
  {
    hide ReadAnswerAt, DomainEq;
    if n > 0 && ReadAnswerAt(p, off).Some? {
      var a := ReadAnswerAt(p, off).value;
      MatchingMeans(p, a.next, n - 1, q);
      if ReadAnswers(p, a.next, n - 1).Some? {
        var rest := ReadAnswers(p, a.next, n - 1).value.items;
        var items := [a] + rest;
        assert Starts(off, items)[1..] == Starts(a.next, rest);
        assert Fitting(items, q)[1..] == Fitting(rest, q);
      }
    }
  }

  function Starts(off: nat, items: seq<Answer>): (r: seq<nat>) {
    seq<nat>(|items|, i requires 0 <= i < |items| => if i == 0 then off else items[i - 1].next)
  }

  function Fitting(items: seq<Answer>, q: Question): (r: seq<bool>) {
    seq(|items|, i requires 0 <= i < |items| =>
      (q.rtype == 255 || q.rtype == items[i].rtype) && DomainEq(q.domain, items[i].domain))
  }

  /** The records of a section that answer `q` are few enough and can all be decoded. */
  predicate Comparable(p: seq<byte>, off: nat, n: nat, q: Question)
    requires off < U16_SIZE
  {
    var m := Matching(p, off, n, q);
    m.Some? && |m.value| <= 4 && Decodable(p, m.value)
  }

  lemma KeysConcat(p: seq<byte>, a: seq<nat>, b: seq<nat>)
    requires Decodable(p, a + b)
    ensures Decodable(p, a) && Decodable(p, b) && Keys(p, a + b) == Keys(p, a) + Keys(p, b)
  {
    hide KeyAt;
    forall i | 0 <= i < |a| ensures KeyAt(p, a[i]).Some? {
      assert (a + b)[i] == a[i];
    }
    forall i | 0 <= i < |b| ensures KeyAt(p, b[i]).Some? {
      assert (a + b)[|a| + i] == b[i];
    }
  }

  /** The sorted list of the next `n` records that answer `q`, on top of `list`. */
  function Collect(p: seq<byte>, off: nat, n: nat, q: Question, list: seq<nat>): (r: Option<seq<nat>>)
    requires off < U16_SIZE
    decreases n
  {
    if n == 0 then Some(list)
    else
      var a := ReadAnswerAt(p, off);
      if a.None? then None
      else if !Answers(q, a.value) then Collect(p, a.value.next, n - 1, q, list)
      else
        var pushed := Push(p, list, off, a.value);
        if pushed.None? then None else Collect(p, a.value.next, n - 1, q, pushed.value)
  }

  /** With few and decodable records the list is their sorted arrangement. */
  lemma {:induction false} CollectSorts(p: seq<byte>, off: nat, n: nat, q: Question, list: seq<nat>)
    requires off < U16_SIZE && Matching(p, off, n, q).Some? && Decodable(p, Matching(p, off, n, q).value)
    requires Decodable(p, list) && |list| + |Matching(p, off, n, q).value| < MAX_ANSWERS
    ensures var r := Collect(p, off, n, q, list);
            && r.Some? && Decodable(p, r.value)
            && Keys(p, r.value) == SortFrom(Keys(p, list), Keys(p, Matching(p, off, n, q).value))
    decreases n
  {
    hide KeyOf, ReadAnswerAt, Answers, Insert, Push, Keys, Decodable;
    if n > 0 {
      var a := ReadAnswerAt(p, off).value;
      var rest := Matching(p, a.next, n - 1, q).value;
      if Answers(q, a) {
        assert Matching(p, off, n, q).value == [off] + rest;
        KeysConcat(p, [off], rest);
        OneKey(p, off, a);
        PushInserts(p, list, off, a);
        CollectSorts(p, a.next, n - 1, q, Push(p, list, off, a).value);
        SortFromCons(Keys(p, list), KeyOf(p, a).value, Keys(p, rest));
      } else {
        assert [] + rest == rest;
        CollectSorts(p, a.next, n - 1, q, list);
      }
    } else {
      NoKeys(p, Keys(p, list));
    }
  }

  lemma OneKey(p: seq<byte>, off: nat, a: Answer)
    requires Decodable(p, [off]) && off < U16_SIZE && ReadAnswerAt(p, off) == Some(a)
    ensures KeyOf(p, a).Some? && Keys(p, [off]) == [KeyOf(p, a).value]
  {
    hide KeyOf, ReadAnswerAt;
    assert KeyAt(p, [off][0]).Some?;
    assert [off][1..] == [];
  }

  lemma NoKeys(p: seq<byte>, done: seq<Key>)
    ensures Decodable(p, []) && Keys(p, []) == [] && SortFrom(done, Keys(p, [])) == done
  {
  }

  lemma SortFromCons(done: seq<Key>, k: Key, ks: seq<Key>)
    ensures SortFrom(done, [k] + ks) == SortFrom(Insert(done, k), ks)
  {
    hide Insert;
    assert ([k] + ks)[1..] == ks;
  }

  /** The loop that extracts and sorts the records answering a question. */
  method SortAnswers(p: seq<byte>, start: nat, n: nat, q: Question)
    returns (status: Status, list: array<nat>, size: nat)
    requires start < U16_SIZE
    ensures fresh(list) && list.Length == MAX_ANSWERS && size < MAX_ANSWERS
    ensures status == Ok <==> Collect(p, start, n, q, []).Some?
    ensures status == Ok ==> Collect(p, start, n, q, []) == Some(list[..size])
  {
    hide ReadAnswerAt, Answers, Push;
    list := new nat[MAX_ANSWERS](_ => 0);
    size := 0;
    var off: nat := start;
    assert list[..0] == [];
    for i := 0 to n
      invariant off < U16_SIZE && size < MAX_ANSWERS
      invariant Collect(p, start, n, q, []) == Collect(p, off, n - i, q, list[..size])
    {
      var r := ReadAnswerAt(p, off);
      if r.None? {
        return ErrVal, list, size;
      }
      if Answers(q, r.value) {
        var s, size' := PushSorted(p, list, size, off, r.value);
        if s != Ok {
          return s, list, size;
        }
        size := size';
      }
      off := r.value.next;
    }
    status := Ok;
  }

  // ----- The verdict

  datatype Outcome = Win | Lose | NoConflict | Skipped

  function OutcomeOf(o: Order): Outcome {
    match o
    case Later => Win
    case Earlier => Lose
    case Equal => NoConflict
  }

  lemma ListsTail(a: seq<Key>, b: seq<Key>, i: nat)
    requires i < |a| && i < |b|
    ensures Compare(a[i], b[i]) == Equal ==> CompareLists(a[i..], b[i..]) == CompareLists(a[i + 1..], b[i + 1..])
    ensures Compare(a[i], b[i]) != Equal ==> CompareLists(a[i..], b[i..]) == Compare(a[i], b[i])
  {
    hide Compare;
    assert a[i..][1..] == a[i + 1..] && b[i..][1..] == b[i + 1..];
  }

  lemma ListsEnd(a: seq<Key>, b: seq<Key>, i: nat)
    requires i <= |a| && i <= |b| && (i == |a| || i == |b|)
    ensures CompareLists(a[i..], b[i..]) == CompareNat(|a|, |b|)
  {
  }

  /** The pairwise comparison of the two lists from place `i` on, and of their sizes. */
  function ComparePairs(p: seq<byte>, mine: seq<nat>, q: seq<byte>, theirs: seq<nat>, i: nat): (v: Outcome)
    decreases |mine| - i
  {
    if i >= |mine| || i >= |theirs| then OutcomeOf(CompareNat(|mine|, |theirs|))
    else if mine[i] >= U16_SIZE || theirs[i] >= U16_SIZE then Skipped
    else
      var a, b := ReadAnswerAt(p, mine[i]), ReadAnswerAt(q, theirs[i]);
      if a.None? || b.None? then Skipped
      else
        var o := CompareIn(p, a.value, q, b.value);
        if o.None? then Skipped
        else if o.value != Equal then OutcomeOf(o.value)
        else ComparePairs(p, mine, q, theirs, i + 1)
  }

  lemma {:induction false} PairsAreLists(p: seq<byte>, mine: seq<nat>, q: seq<byte>, theirs: seq<nat>, i: nat)
    requires Decodable(p, mine) && Decodable(q, theirs) && i <= |mine| && i <= |theirs|
    ensures ComparePairs(p, mine, q, theirs, i)
         == OutcomeOf(CompareLists(Keys(p, mine)[i..], Keys(q, theirs)[i..]))
    decreases |mine| - i
  {
    hide KeyOf, ReadAnswerAt, Compare, CompareIn, CompareLists, Keys;
    var x, y := Keys(p, mine), Keys(q, theirs);
    if i < |mine| && i < |theirs| {
      assert KeyAt(p, mine[i]).Some? && KeyAt(q, theirs[i]).Some?;
      CompareInIsOrder(p, ReadAnswerAt(p, mine[i]).value, q, ReadAnswerAt(q, theirs[i]).value);
      ListsTail(x, y, i);
      if Compare(x[i], y[i]) == Equal {
        PairsAreLists(p, mine, q, theirs, i + 1);
      }
    } else {
      ListsEnd(x, y, i);
    }
  }

  /** The pairwise comparison at the end of `mdns_handle_probe_tiebreaking`. */
  method CompareSorted(p: seq<byte>, mine: seq<nat>, q: seq<byte>, theirs: seq<nat>) returns (v: Outcome)
    ensures v == ComparePairs(p, mine, q, theirs, 0)
  {
    hide ReadAnswerAt, CompareIn;
    var min := if |mine| < |theirs| then |mine| else |theirs|;
    for i := 0 to min
      invariant ComparePairs(p, mine, q, theirs, 0) == ComparePairs(p, mine, q, theirs, i)
    {
      if mine[i] >= U16_SIZE || theirs[i] >= U16_SIZE {
        return Skipped;
      }
      var a, b := ReadAnswerAt(p, mine[i]), ReadAnswerAt(q, theirs[i]);
      if a.None? || b.None? {
        return Skipped;
      }
      var s, o := CompareRecords(p, a.value, q, b.value);
      if s != Ok {
        return Skipped;
      }
      if o != Equal {
        return if o == Later then Win else Lose;
      }
    }
    return if |mine| == |theirs| then NoConflict else if |mine| > |theirs| then Win else Lose;
  }

  /** The outcome over one name that both hosts probe for; a section is given by its offset and size. */
  function Judge(p: seq<byte>, pOff: nat, m: nat, q: seq<byte>, qOff: nat, n: nat, question: Question): (v: Outcome)
    requires pOff < U16_SIZE && qOff < U16_SIZE
  {
    var mine, theirs := Collect(p, pOff, m, question, []), Collect(q, qOff, n, question, []);
    if mine.None? || theirs.None? then Skipped else ComparePairs(p, mine.value, q, theirs.value, 0)
  }

  /**
    With at most four records on each side that answer the question, all of them decodable, the
    outcome is the verdict on the keys of these records.
   */
  lemma JudgeIsVerdict(p: seq<byte>, pOff: nat, m: nat, q: seq<byte>, qOff: nat, n: nat, question: Question)
    requires pOff < U16_SIZE && qOff < U16_SIZE
    requires Comparable(p, pOff, m, question) && Comparable(q, qOff, n, question)
    ensures Judge(p, pOff, m, q, qOff, n, question)
         == OutcomeOf(Verdict(Keys(p, Matching(p, pOff, m, question).value),
                              Keys(q, Matching(q, qOff, n, question).value)))
  {
    hide Collect, ComparePairs, Matching, SortFrom, CompareLists, Keys;
    NoKeys(p, []);
    NoKeys(q, []);
    CollectSorts(p, pOff, m, question, []);
    CollectSorts(q, qOff, n, question, []);
    var mine, theirs := Collect(p, pOff, m, question, []).value, Collect(q, qOff, n, question, []).value;
    PairsAreLists(p, mine, q, theirs, 0);
    assert Keys(p, mine)[0..] == Keys(p, mine) && Keys(q, theirs)[0..] == Keys(q, theirs);
  }

  /**
    The outcome as section 8.2.1 of RFC 6762 has it: of the two sorted arrangements that of the
    winner is later, and it is a tie if they are the same.
   */
  ghost predicate Settles(v: Outcome, mine: seq<Key>, theirs: seq<Key>) {
    exists a, b :: Arrangement(a, mine) && Arrangement(b, theirs)
      && v == if ListLater(a, b) then Win else if ListLater(b, a) then Lose else NoConflict
  }

  /** It settles the matter for the records in the two sections that answer the question. */
  lemma JudgeMeans(p: seq<byte>, pOff: nat, m: nat, q: seq<byte>, qOff: nat, n: nat, question: Question)
    requires pOff < U16_SIZE && qOff < U16_SIZE
    requires Comparable(p, pOff, m, question) && Comparable(q, qOff, n, question)
    ensures Settles(Judge(p, pOff, m, q, qOff, n, question),
                    Keys(p, Matching(p, pOff, m, question).value), Keys(q, Matching(q, qOff, n, question).value))
  {
    hide Judge, Matching, Keys, Decodable, Verdict, ListLater, Arrangement;
    JudgeIsVerdict(p, pOff, m, q, qOff, n, question);
    var a, b := VerdictMeans(Keys(p, Matching(p, pOff, m, question).value), Keys(q, Matching(q, qOff, n, question).value));
    assert Arrangement(a, Keys(p, Matching(p, pOff, m, question).value));
    assert Arrangement(b, Keys(q, Matching(q, qOff, n, question).value));
  }

  lemma {:induction false} FullList(p: seq<byte>, off: nat, n: nat, q: Question, list: seq<nat>)
    requires off < U16_SIZE && |list| <= 4
    requires Matching(p, off, n, q).None? || |list| + |Matching(p, off, n, q).value| > 4
    ensures Collect(p, off, n, q, list).None?
    decreases n
  {
    hide ReadAnswerAt, Answers, Place;
    if n > 0 && ReadAnswerAt(p, off).Some? {
      var a := ReadAnswerAt(p, off).value;
      if !Answers(q, a) {
        FullList(p, a.next, n - 1, q, list);
      } else if Push(p, list, off, a).Some? {
        FullList(p, a.next, n - 1, q, Push(p, list, off, a).value);
      }
    }
  }

  /** With a record that cannot be read, or more than four that answer the question, the tiebreak gives up. */
  lemma JudgeGivesUp(p: seq<byte>, pOff: nat, m: nat, q: seq<byte>, qOff: nat, n: nat, question: Question)
    requires pOff < U16_SIZE && qOff < U16_SIZE
    requires var mine, theirs := Matching(p, pOff, m, question), Matching(q, qOff, n, question);
             mine.None? || |mine.value| > 4 || theirs.None? || |theirs.value| > 4
    ensures Judge(p, pOff, m, q, qOff, n, question) == Skipped
  {
    hide Matching, Collect;
    if Matching(p, pOff, m, question).None? || |Matching(p, pOff, m, question).value| > 4 {
      FullList(p, pOff, m, question, []);
    } else {
      FullList(q, qOff, n, question, []);
    }
  }

  /** The body of the tiebreak for one name. */
  method JudgeProbe(p: seq<byte>, pOff: nat, m: nat, q: seq<byte>, qOff: nat, n: nat, question: Question)
    returns (v: Outcome)
    requires pOff < U16_SIZE && qOff < U16_SIZE
    ensures v == Judge(p, pOff, m, q, qOff, n, question)
    ensures Comparable(p, pOff, m, question) && Comparable(q, qOff, n, question) ==>
              Settles(v, Keys(p, Matching(p, pOff, m, question).value), Keys(q, Matching(q, qOff, n, question).value))
  {
    hide Collect, ComparePairs, Matching, Keys, Decodable, Settles;
    if Comparable(p, pOff, m, question) && Comparable(q, qOff, n, question) {
      JudgeMeans(p, pOff, m, q, qOff, n, question);
    }
    var s, mine, k := SortAnswers(p, pOff, m, question);
    if s != Ok {
      return Skipped;
    }
    var s', theirs, k' := SortAnswers(q, qOff, n, question);
    if s' != Ok {
      return Skipped;
    }
    v := CompareSorted(p, mine[..k], q, theirs[..k']);
  }

  // ----- The two hosts

  function Opposite(v: Outcome): (w: Outcome) {
    match v
    case Win => Lose
    case Lose => Win
    case NoConflict => NoConflict
    case Skipped => Skipped
  }

  /** Two questions for the same name ask for the same records. */
  lemma {:induction false} SameMatching(p: seq<byte>, off: nat, n: nat, q: Question, q': Question)
    requires off < U16_SIZE && q.rtype == q'.rtype && DomainEq(q.domain, q'.domain)
    ensures Matching(p, off, n, q) == Matching(p, off, n, q')
    decreases n
  {
    hide ReadAnswerAt, DomainEq;
    if n > 0 && ReadAnswerAt(p, off).Some? {
      var a := ReadAnswerAt(p, off).value;
      DomainEqSwap(q.domain, q'.domain, a.domain);
      DomainEqSwap(q'.domain, q.domain, a.domain);
      SameMatching(p, a.next, n - 1, q, q');
    }
  }

  /** Each host judges with its own question for the common name, and the outcomes are opposite. */
  lemma JudgedOpposite(p: seq<byte>, pOff: nat, m: nat, q: seq<byte>, qOff: nat, n: nat, mine: Question, theirs: Question)
    requires pOff < U16_SIZE && qOff < U16_SIZE
    requires mine.rtype == theirs.rtype && DomainEq(mine.domain, theirs.domain)
    requires Comparable(p, pOff, m, mine) && Comparable(q, qOff, n, mine)
    ensures Judge(q, qOff, n, p, pOff, m, theirs) == Opposite(Judge(p, pOff, m, q, qOff, n, mine))
    ensures Judge(p, pOff, m, q, qOff, n, mine) == NoConflict <==>
            multiset(Keys(p, Matching(p, pOff, m, mine).value)) == multiset(Keys(q, Matching(q, qOff, n, mine).value))
  {
    hide Judge, Matching, Keys, Verdict, DomainEq;
    SameMatching(p, pOff, m, mine, theirs);
    SameMatching(q, qOff, n, mine, theirs);
    JudgeIsVerdict(p, pOff, m, q, qOff, n, mine);
    JudgeIsVerdict(q, qOff, n, p, pOff, m, theirs);
    var x, y := Keys(p, Matching(p, pOff, m, mine).value), Keys(q, Matching(q, qOff, n, mine).value);
    VerdictIsFair(x, y, x, y);
  }
}
