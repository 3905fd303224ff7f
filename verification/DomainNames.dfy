/**
  Domain names as label lists and as the byte strings of `struct mdns_domain`.
 */
module DomainNames {
  import opened Bytes

  const LABEL_MAXLEN: nat := 63
  const DOMAIN_MAXLEN: nat := 256

  type Label = l: seq<byte> | 1 <= |l| <= LABEL_MAXLEN witness [97]

  /** The wire form of a name: every label with its length byte, then the root label. */
  function Encode(ls: seq<Label>): (d: seq<byte>)
    ensures |d| > |ls|
    ensures d[0] <= LABEL_MAXLEN
  {
    if ls == [] then [0] else [|ls[0]|] + ls[0] + Encode(ls[1..])
  }

  lemma EncodeCons(ls: seq<Label>)
    requires ls != []
    ensures Encode(ls) == [|ls[0]|] + ls[0] + Encode(ls[1..])
  {
  }

  /** The position of label `k`'s length byte (of the root label for `k == |ls|`). */
  function Start(ls: seq<Label>, k: nat): (s: nat)
    requires k <= |ls|
    ensures k <= s
  {
    if k == 0 then 0 else 1 + |ls[0]| + Start(ls[1..], k - 1)
  }

  /** The wire form of the first `k` labels. */
  function Head(ls: seq<Label>, k: nat): (h: seq<byte>)
    requires k <= |ls|
    ensures |h| == Start(ls, k)
  {
    if k == 0 then [] else [|ls[0]|] + ls[0] + Head(ls[1..], k - 1)
  }

  /** A name splits at every label. */
  lemma {:induction false} HeadEncode(ls: seq<Label>, k: nat)
    requires k <= |ls|
    ensures Encode(ls) == Head(ls, k) + Encode(ls[k..])
    ensures Start(ls, k) < |Encode(ls)|
    ensures Encode(ls)[..Start(ls, k)] == Head(ls, k)
    ensures Encode(ls)[Start(ls, k)..] == Encode(ls[k..])
  {
    if k > 0 {
      HeadEncode(ls[1..], k - 1);
      assert ls[1..][k - 1..] == ls[k..];
    } else {
      assert ls[0..] == ls;
    }
  }

  /** Label starts compose. */
  lemma {:induction false} StartAdd(ls: seq<Label>, k: nat, m: nat)
    requires k + m <= |ls|
    ensures Start(ls, k + m) == Start(ls, k) + Start(ls[k..], m)
  {
    if k > 0 {
      StartAdd(ls[1..], k - 1, m);
      assert ls[1..][k - 1..] == ls[k..];
    } else {
      assert ls[0..] == ls;
    }
  }

  lemma {:induction false} EncodeInjective(a: seq<Label>, b: seq<Label>)
    requires Encode(a) == Encode(b)
    ensures a == b
  {
    if a == [] || b == [] {
      assert Encode(a)[0] == Encode(b)[0];
    } else {
      assert Encode(a)[0] == Encode(b)[0];
      var n := |a[0]|;
      assert Encode(a)[1..1 + n] == a[0];
      assert Encode(b)[1..1 + n] == b[0];
      assert Encode(a)[1 + n..] == Encode(a[1..]);
      assert Encode(b)[1 + n..] == Encode(b[1..]);
      EncodeInjective(a[1..], b[1..]);
      assert a == [a[0]] + a[1..];
      assert b == [b[0]] + b[1..];
    }
  }

  /** `x` is the position of a length byte of the name. */
  predicate IsStart(ls: seq<Label>, x: nat) {
    x == 0 || (ls != [] && x >= 1 + |ls[0]| && IsStart(ls[1..], x - 1 - |ls[0]|))
  }

  lemma {:induction false} StartOf(ls: seq<Label>, x: nat) returns (k: nat)
    requires IsStart(ls, x)
    ensures k <= |ls| && x == Start(ls, k)
  {
    k := 0;
    if x > 0 {
      k := StartOf(ls[1..], x - 1 - |ls[0]|);
      k := k + 1;
    }
  }

  /** The length bytes of the labels from `k` on are those of the whole name, shifted. */
  lemma {:induction false} IsStartShift(ls: seq<Label>, k: nat, x: nat)
    requires k <= |ls|
    ensures IsStart(ls, Start(ls, k) + x) <==> IsStart(ls[k..], x)
  {
    if k > 0 {
      IsStartShift(ls[1..], k - 1, x);
      assert ls[1..][k - 1..] == ls[k..];
    } else {
      assert ls[0..] == ls;
    }
  }

  /** The byte at a label's start is its length, and the next label follows its content. */
  lemma LabelAt(ls: seq<Label>, k: nat)
    requires k <= |ls|
    ensures Start(ls, k) < |Encode(ls)|
    ensures k < |ls| ==> Encode(ls)[Start(ls, k)] == |ls[k]| && Start(ls, k + 1) == Start(ls, k) + 1 + |ls[k]|
    ensures k == |ls| ==> Encode(ls)[Start(ls, k)] == 0 && |Encode(ls)| == Start(ls, k) + 1
  {
    HeadEncode(ls, k);
    assert Encode(ls)[Start(ls, k)] == Encode(ls[k..])[0];
    if k < |ls| {
      StartAdd(ls, k, 1);
    }
  }
}
