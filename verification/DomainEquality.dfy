/**
  Comparing names without regard to case (`mdns_domain_eq`, `lwip_strnicmp`).
 */
module DomainEquality {
  import opened Bytes
  import opened DomainNames
  import opened NameBuffers

  /** ASCII letters in lower case: the bytes that setting bit 5 can make equal. */
  function Lower(b: byte): (r: byte) {
    if 65 <= b <= 90 then b + 32 else b
  }

  /** Setting bit 5 of a byte. */
  function Bit5(b: byte): (r: byte) {
    if b / 32 % 2 == 1 then b else b + 32
  }

  /** The test of `lwip_strnicmp` on one pair of bytes. */
  predicate SameByte(x: byte, y: byte) {
    x == y || (97 <= Bit5(x) <= 122 && Bit5(x) == Bit5(y))
  }

  lemma SameByteIsCase(x: byte, y: byte)
    ensures SameByte(x, y) <==> Lower(x) == Lower(y)
  {
  }

  /** `lwip_strnicmp` on labels of equal length: it stops at the first zero byte of the first. */
  predicate SameLabel(x: seq<byte>, y: seq<byte>)
    requires |x| == |y|
  {
    x == [] || (SameByte(x[0], y[0]) && (x[0] == 0 || SameLabel(x[1..], y[1..])))
  }

  /** `mdns_domain_eq` from position `i` of two names of equal length. */
  predicate SameFrom(a: seq<byte>, b: seq<byte>, i: nat)
    requires |a| == |b|
    decreases |a| - i
  {
    if i >= |a| then true
    else if a[i] == 0 || b[i] == 0 then a[i] == b[i]
    else
      && a[i] == b[i] && i + 1 + a[i] <= |a|
      && SameLabel(a[i + 1..i + 1 + a[i]], b[i + 1..i + 1 + a[i]])
      && SameFrom(a, b, i + 1 + a[i])
  }

  predicate DomainEq(a: seq<byte>, b: seq<byte>) {
    |a| == |b| && SameFrom(a, b, 0)
  }

  // ----- What it means

  /** The bytes in front of the first zero byte. */
  function Visible(x: seq<byte>): (v: seq<byte>)
    ensures |v| <= |x| && (|v| == |x| <==> 0 !in x)
  {
    if x == [] || x[0] == 0 then [] else [x[0]] + Visible(x[1..])
  }

  ghost predicate EqualIgnoringCase(x: seq<byte>, y: seq<byte>) {
    |x| == |y| && forall i :: 0 <= i < |x| ==> Lower(x[i]) == Lower(y[i])
  }

  /** Labels of one length that agree, case aside, up to the first zero byte. */
  ghost predicate SameText(x: Label, y: Label) {
    |x| == |y| && EqualIgnoringCase(Visible(x), Visible(y))
  }

  ghost predicate SameName(a: seq<Label>, b: seq<Label>) {
    |a| == |b| && forall i :: 0 <= i < |a| ==> SameText(a[i], b[i])
  }

  lemma {:induction false} SameLabelExact(x: seq<byte>, y: seq<byte>)
    requires |x| == |y|
    ensures SameLabel(x, y) <==> EqualIgnoringCase(Visible(x), Visible(y))
  {
    if x != [] {
      SameByteIsCase(x[0], y[0]);
      SameLabelExact(x[1..], y[1..]);
      if x[0] != 0 && y[0] != 0 {
        var u, v := Visible(x), Visible(y);
        assert u[1..] == Visible(x[1..]) && v[1..] == Visible(y[1..]);
        assert u == [u[0]] + u[1..] && v == [v[0]] + v[1..];
      }
    }
  }

  lemma {:induction false} SameFromExact(a: seq<Label>, b: seq<Label>, m: nat)
    requires |Encode(a)| == |Encode(b)| && m <= |a| && m <= |b| && Start(a, m) == Start(b, m)
    ensures SameFrom(Encode(a), Encode(b), Start(a, m)) <==> SameName(a[m..], b[m..])
    decreases |a| - m
  {
    hide Encode, Start, Head, SameText, SameLabel;
    LabelAt(a, m);
    LabelAt(b, m);
    if m < |a| && m < |b| {
      SameNameStep(a, b, m);
      if |a[m]| == |b[m]| {
        LabelBytes(a, m);
        LabelBytes(b, m);
        SameLabelExact(a[m], b[m]);
        SameTextIs(a[m], b[m]);
        SameFromExact(a, b, m + 1);
      } else {
        SameTextIs(a[m], b[m]);
      }
    }
  }

  lemma SameTextIs(x: Label, y: Label)
    ensures SameText(x, y) <==> |x| == |y| && EqualIgnoringCase(Visible(x), Visible(y))
  {
  }

  lemma SameNameStep(a: seq<Label>, b: seq<Label>, m: nat)
    requires m < |a| && m < |b|
    ensures SameName(a[m..], b[m..]) <==> SameText(a[m], b[m]) && SameName(a[m + 1..], b[m + 1..])
  {
    hide SameText;
    var x, y := a[m..], b[m..];
    assert x[1..] == a[m + 1..] && y[1..] == b[m + 1..] && x[0] == a[m] && y[0] == b[m];
    if SameText(a[m], b[m]) && SameName(a[m + 1..], b[m + 1..]) {
      forall i | 0 <= i < |x| ensures SameText(x[i], y[i]) {
        if i > 0 {
          assert x[i] == x[1..][i - 1] && y[i] == y[1..][i - 1];
        }
      }
    }
    if SameName(x, y) {
      forall i | 0 <= i < |x| - 1 ensures SameText(x[1..][i], y[1..][i]) {
        assert SameText(x[i + 1], y[i + 1]);
      }
    }
  }

  lemma LabelBytes(ls: seq<Label>, m: nat)
    requires m < |ls|
    ensures var s, d := Start(ls, m), Encode(ls);
            s + 1 + |ls[m]| < |d| && d[s + 1..s + 1 + |ls[m]|] == ls[m]
  {
    hide Encode, Start, Head;
    HeadEncode(ls, m);
    LabelAt(ls, m);
    LabelAt(ls, m + 1);
    EncodeCons(ls[m..]);
    var s, d := Start(ls, m), Encode(ls);
    assert d[s..][1..1 + |ls[m]|] == d[s + 1..s + 1 + |ls[m]|];
  }

  /**
    Two names are equal for the responder if and only if they have the same number of labels and
    each pair of labels has one length and agrees, case aside, up to its first zero byte.
   */
  lemma DomainEqExact(a: seq<Label>, b: seq<Label>)
    ensures DomainEq(Encode(a), Encode(b)) <==> SameName(a, b)
  {
    hide Encode, SameFrom, SameText;
    assert Start(a, 0) == Start(b, 0) == 0;
    assert a[0..] == a && b[0..] == b;
    if |Encode(a)| == |Encode(b)| {
      SameFromExact(a, b, 0);
    } else if SameName(a, b) {
      SameLength(a, b);
    }
  }

  lemma {:induction false} SameLength(a: seq<Label>, b: seq<Label>)
    requires SameName(a, b)
    ensures |Encode(a)| == |Encode(b)|
  {
    hide Encode, SameText;
    if a != [] {
      EncodeCons(a);
      EncodeCons(b);
      assert SameText(a[0], b[0]);
      SameTextIs(a[0], b[0]);
      SameTail(a, b);
      SameLength(a[1..], b[1..]);
    } else {
      assert b == a;
    }
  }

  lemma SameTail(a: seq<Label>, b: seq<Label>)
    requires SameName(a, b) && a != []
    ensures SameName(a[1..], b[1..])
  {
    hide SameText;
    forall i | 0 <= i < |a| - 1 ensures SameText(a[1..][i], b[1..][i]) {
      assert SameText(a[i + 1], b[i + 1]);
    }
  }

  /** Without zero bytes, equality of labels is equality up to case. */
  lemma {:induction false} AllVisible(x: seq<byte>)
    requires 0 !in x
    ensures Visible(x) == x
  {
    if x != [] {
      AllVisible(x[1..]);
      assert x == [x[0]] + x[1..];
    }
  }

  // ----- An equivalence

  lemma {:induction false} LabelsSwap(x: seq<byte>, y: seq<byte>, z: seq<byte>)
    requires |x| == |y| == |z| && SameLabel(x, y)
    ensures SameLabel(y, x)
    ensures SameLabel(y, z) ==> SameLabel(x, z)
  {
    if x != [] {
      SameByteIsCase(x[0], y[0]);
      SameByteIsCase(y[0], x[0]);
      SameByteIsCase(y[0], z[0]);
      SameByteIsCase(x[0], z[0]);
      if x[0] != 0 {
        LabelsSwap(x[1..], y[1..], z[1..]);
      }
    }
  }

  lemma {:induction false} NamesSwap(a: seq<byte>, b: seq<byte>, c: seq<byte>, i: nat)
    requires |a| == |b| == |c| && SameFrom(a, b, i)
    ensures SameFrom(b, a, i)
    ensures SameFrom(b, c, i) ==> SameFrom(a, c, i)
    decreases |a| - i
  {
    hide SameLabel;
    if i < |a| && a[i] != 0 {
      var next := i + 1 + a[i];
      LabelsSwap(a[i + 1..next], b[i + 1..next], c[i + 1..next]);
      NamesSwap(a, b, c, next);
    }
  }

  /** The comparison is symmetric and transitive, on malformed names as well. */
  lemma DomainEqSwap(a: seq<byte>, b: seq<byte>, c: seq<byte>)
    requires DomainEq(a, b)
    ensures DomainEq(b, a)
    ensures DomainEq(b, c) ==> DomainEq(a, c)
  {
    hide SameFrom;
    NamesSwap(a, b, if |c| == |a| then c else a, 0);
  }

  /** One turn of the comparison. */
  lemma SameFromStep(a: seq<byte>, b: seq<byte>, i: nat)
    requires |a| == |b| && i < |a| && a[i] != 0 && b[i] != 0
    ensures a[i] != b[i] || i + 1 + a[i] > |a| ==> !SameFrom(a, b, i)
    ensures a[i] == b[i] && i + 1 + a[i] <= |a| ==>
              (SameFrom(a, b, i) <==> SameLabel(a[i + 1..i + 1 + a[i]], b[i + 1..i + 1 + a[i]])
                                      && SameFrom(a, b, i + 1 + a[i]))
  {
    hide SameLabel;
  }

  lemma SameFromEnd(a: seq<byte>, b: seq<byte>, i: nat)
    requires |a| == |b| && (i >= |a| || a[i] == 0 || b[i] == 0)
    ensures SameFrom(a, b, i) <==> i >= |a| || a[i] == b[i]
  {
  }

  /** `mdns_domain_eq` on the name buffers. */
  method DomainsEqual(a: Domain, b: Domain) returns (eq: bool)
    requires a.Valid() && b.Valid()
    ensures eq == DomainEq(a.Contents(), b.Contents())
  {
    if a.length != b.length {
      return false;
    }
    ghost var x, y := a.Contents(), b.Contents();
    hide SameLabel, SameFrom;
    var i: nat := 0;
    while i < a.length && a.name[i] != 0 && b.name[i] != 0
      invariant i <= a.length
      invariant SameFrom(x, y, 0) == SameFrom(x, y, i)
      decreases a.length - i
    {
      SameFromStep(x, y, i);
      var len := a.name[i];
      if len != b.name[i] || i + 1 + len > a.length {
        return false;
      }
      var u, v := a.name[i + 1..i + 1 + len], b.name[i + 1..i + 1 + len];
      SliceOfPrefix(a.name[..], a.length, i + 1, i + 1 + len);
      SliceOfPrefix(b.name[..], b.length, i + 1, i + 1 + len);
      assert u == x[i + 1..i + 1 + len] && v == y[i + 1..i + 1 + len];
      var same := LabelsEqual(u, v);
      if !same {
        return false;
      }
      i := i + 1 + len;
    }
    SameFromEnd(x, y, i);
    return i >= a.length || a.name[i] == b.name[i];
  }

  /** `lwip_strnicmp`. */
  method LabelsEqual(x: seq<byte>, y: seq<byte>) returns (same: bool)
    requires |x| == |y|
    ensures same == SameLabel(x, y)
  {
    for i := 0 to |x|
      invariant SameLabel(x, y) == SameLabel(x[i..], y[i..])
    {
      assert x[i..][1..] == x[i + 1..] && y[i..][1..] == y[i + 1..];
      if !SameByte(x[i], y[i]) {
        return false;
      }
      if x[i] == 0 {
        return true;
      }
    }
    return true;
  }
}
