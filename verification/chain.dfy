/**
 The network stack's chained packet buffer: a frame held as a sequence of independently
 allocated segments. Only the payload of each segment is modelled.
 */
module BufferChain {
  import opened Bytes

  /** The segments of a chained buffer, in `next` order. */
  type Chain = seq<seq<byte>>

  /** The frame a chain holds: its segments' payloads concatenated. */
  function Flatten(c: Chain): seq<byte>
    decreases |c|
  {
    if |c| == 0 then [] else Flatten(c[..|c| - 1]) + c[|c| - 1]
  }

  /** The sum of a sequence of lengths. */
  function Sum(lens: seq<nat>): nat
    decreases |lens|
  {
    if |lens| == 0 then 0 else Sum(lens[..|lens| - 1]) + lens[|lens| - 1]
  }

  /** The reference reading of a chain: frame `b` cut into consecutive segments of lengths
      `lens`, in order. */
  function Split(b: seq<byte>, lens: seq<nat>): (c: Chain)
    requires Sum(lens) == |b|
    decreases |lens|
  {
    if |lens| == 0 then []
    else
      var cut := |b| - lens[|lens| - 1];
      Split(b[..cut], lens[..|lens| - 1]) + [b[cut..]]
  }

  /** The segment lengths of a chain, in order. */
  function Lengths(c: Chain): (lens: seq<nat>)
    ensures |lens| == |c|
    ensures forall k :: 0 <= k < |c| ==> lens[k] == |c[k]|
  {
    seq(|c|, k requires 0 <= k < |c| => |c[k]|)
  }

  /** A chain's frame is as long as its segments together: the `tot_len` of the chain. */
  lemma {:induction false} FlattenLength(c: Chain)
    ensures |Flatten(c)| == Sum(Lengths(c))
    decreases |c|
  {
    if |c| > 0 {
      FlattenLength(c[..|c| - 1]);
      assert Lengths(c[..|c| - 1]) == Lengths(c)[..|c| - 1];
    }
  }

  /** Appending a segment appends its payload to the frame. */
  lemma FlattenSnoc(c: Chain, s: seq<byte>)
    ensures Flatten(c + [s]) == Flatten(c) + s
  {
  }

  /** The frame of the first `j + 1` segments is that of the first `j` followed by segment `j`. */
  lemma FlattenStep(c: Chain, j: nat)
    requires j < |c|
    ensures Flatten(c[..j + 1]) == Flatten(c[..j]) + c[j]
  {
    FlattenSnoc(c[..j], c[j]);
    assert c[..j + 1] == c[..j] + [c[j]];
  }

  /** Extending a list of lengths by one extends its sum by that length. */
  lemma SumSnoc(lens: seq<nat>, j: nat)
    requires j < |lens|
    ensures Sum(lens[..j + 1]) == Sum(lens[..j]) + lens[j]
  {
    assert lens[..j + 1][..j] == lens[..j];
  }

  /** The frame of a chain is the frame of its first `j` segments followed by that of the rest. */
  lemma {:induction false} FlattenSplit(c: Chain, j: nat)
    requires j <= |c|
    ensures Flatten(c) == Flatten(c[..j]) + Flatten(c[j..])
    decreases |c|
  {
    if j < |c| {
      var n := |c| - 1;
      FlattenSplit(c[..n], j);
      assert c[..n][..j] == c[..j];
      assert c[j..][..|c[j..]| - 1] == c[..n][j..];
      assert c[j..][|c[j..]| - 1] == c[n];
    } else {
      assert c[..j] == c;
    }
  }

  /** The first segment's payload opens the frame of a non-empty chain. */
  lemma {:induction false} FlattenCons(c: Chain)
    requires |c| > 0
    ensures Flatten(c) == c[0] + Flatten(c[1..])
  {
    FlattenSplit(c, 1);
    var one := c[..1];
    assert one[..0] == [];
    assert Flatten(one) == Flatten(one[..0]) + one[0];
  }

  /** A chain is determined by its frame and its segment lengths: cutting its frame at its
      segment lengths gives the chain back. */
  lemma {:induction false} SplitUnique(c: Chain)
    ensures Sum(Lengths(c)) == |Flatten(c)|
    ensures Split(Flatten(c), Lengths(c)) == c
    decreases |c|
  {
    FlattenLength(c);
    if |c| > 0 {
      var p := c[..|c| - 1];
      SplitUnique(p);
      assert Lengths(c)[..|c| - 1] == Lengths(p);
      assert Flatten(c)[..|Flatten(p)|] == Flatten(p);
      assert Flatten(c)[|Flatten(p)|..] == c[|c| - 1];
      assert p + [c[|c| - 1]] == c;
    }
  }
}
