/**
  NTFS run lists: the mapping-pair decoder that builds a linked list of runs
  (FS/NTFS/MFT/attributes/attributes.go).
*/
module RunLists {
  import opened Bytes
  import opened EndianInts
  import opened Wrappers

  /** A run: clusters from the previous run's start, and length in clusters. */
  datatype Run = Run(offset: int, length: nat)

  function TotalLength(runs: seq<Run>): nat
  {
    if runs == [] then 0 else runs[0].length + TotalLength(runs[1..])
  }

  lemma {:induction false} TotalLengthAppend(a: seq<Run>, b: seq<Run>)
    ensures TotalLength(a + b) == TotalLength(a) + TotalLength(b)
  {
    if a == [] {
      assert a + b == b;
    } else {
      TotalLengthAppend(a[1..], b);
      assert (a + b)[1..] == a[1..] + b;
    }
  }

  // ---------- What a byte string decodes to ----------

  function OffsetBytes(header: byte): nat
  {
    Val((header & 0xf0) >> 4)
  }

  function LengthBytes(header: byte): nat
  {
    Val(header & 0x0f)
  }

  predicate StopsDecoding(header: byte)
  {
    LengthBytes(header) > 8 || OffsetBytes(header) > 8 || LengthBytes(header) == 0
  }

  function PairRun(lengthField: seq<byte>, offsetField: seq<byte>): Run
  {
    Run(DecodedInt(offsetField), LE(lengthField))
  }

  function PrependRuns(p: seq<Run>, r: Outcome<seq<Run>>): Outcome<seq<Run>>
  {
    if r.Done? then Done(p + r.value) else r
  }

  /** The runs decoded from position at on. The attribute ends at n; buf goes on to the end of the
      record, which a pair that overruns the attribute is read from. Past buf the slice faults. */
  function DecodeFrom(buf: seq<byte>, n: nat, at: nat): Outcome<seq<Run>>
    requires n <= |buf|
    decreases |buf| - at
  {
    if at >= n || StopsDecoding(buf[at]) then Done([])
    else
      var mid := at + 1 + LengthBytes(buf[at]);
      var end := mid + OffsetBytes(buf[at]);
      if end > |buf| then Panic
      else PrependRuns([PairRun(buf[at + 1..mid], buf[mid..end])], DecodeFrom(buf, n, end))
  }

  lemma PrependRunsTwice(p: seq<Run>, q: seq<Run>, r: Outcome<seq<Run>>)
    ensures PrependRuns(p, PrependRuns(q, r)) == PrependRuns(p + q, r)
  {
    if r.Done? {
      assert p + (q + r.value) == (p + q) + r.value;
    }
  }

  lemma PrependNoRuns(r: Outcome<seq<Run>>)
    ensures PrependRuns([], r) == r
  {
    if r.Done? {
      assert [] + r.value == r.value;
    }
  }

  lemma PrependAllRuns(p: seq<Run>)
    ensures PrependRuns(p, Done([])) == Done(p)
  {
    assert p + [] == p;
  }

  lemma DecodeStops(buf: seq<byte>, n: nat, at: nat)
    requires n <= |buf| && (at >= n || StopsDecoding(buf[at]))
    ensures DecodeFrom(buf, n, at) == Done([])
  {
  }

  /** One pair's worth of progress in terms of the runs decoded so far. */
  lemma DecodeAdvance(buf: seq<byte>, n: nat, at: nat, done: seq<Run>)
    requires at < n <= |buf| && !StopsDecoding(buf[at])
    ensures var mid := at + 1 + LengthBytes(buf[at]);
            var end := mid + OffsetBytes(buf[at]);
            PrependRuns(done, DecodeFrom(buf, n, at)) ==
            if end > |buf| then Panic
            else PrependRuns(done + [PairRun(buf[at + 1..mid], buf[mid..end])], DecodeFrom(buf, n, end))
  {
    hide StopsDecoding, PairRun, OffsetBytes, LengthBytes;
    var mid := at + 1 + LengthBytes(buf[at]);
    var end := mid + OffsetBytes(buf[at]);
    if end <= |buf| {
      PrependRunsTwice(done, [PairRun(buf[at + 1..mid], buf[mid..end])], DecodeFrom(buf, n, end));
    }
  }

  // ---------- The linked list ----------

  /** nodes are the nodes of a linked list in order, the last one without a successor. */
  ghost predicate IsList(nodes: seq<RunList>)
    reads nodes
  {
    nodes != [] && nodes[|nodes| - 1].Next == null &&
    forall i | 0 <= i < |nodes| - 1 :: nodes[i].Next == nodes[i + 1]
  }

  ghost predicate Holds(nodes: seq<RunList>, runs: seq<Run>)
    reads nodes
  {
    |nodes| == |runs| && forall i | 0 <= i < |nodes| :: Run(nodes[i].Offset, nodes[i].Length) == runs[i]
  }

  ghost predicate Distinct(nodes: seq<RunList>)
  {
    forall i, j | 0 <= i < j < |nodes| :: nodes[i] != nodes[j]
  }

  class RunList {
    var Offset: int
    var Length: nat
    var Next: RunList?

    /** The list node of one run, without a successor. */
    constructor (offset: int, length: nat)
      ensures Offset == offset && Length == length && Next == null
    {
      Offset, Length, Next := offset, length, null;
    }

    /** Decodes mapping pairs into a list that starts at this node; each later run gets a node of its
        own. Returns the number of clusters, in 64-bit arithmetic. */
    method Process(buf: seq<byte>, n: nat) returns (r: Outcome<nat>, ghost nodes: seq<RunList>)
      requires n <= |buf|
      modifies this
      ensures var runs := DecodeFrom(buf, n, 0);
              match runs
              case Panic => r.Panic?
              case Error => false
              case Done(runs) =>
                r == Done(TotalLength(runs) % TWO_TO_64) && Holds(nodes, runs) && Distinct(nodes) &&
                (runs == [] ==> unchanged(this)) &&
                (runs != [] ==> nodes[0] == this && IsList(nodes)) &&
                forall i | 0 < i < |nodes| :: fresh(nodes[i])
    {
      hide StopsDecoding, PairRun, OffsetBytes, LengthBytes, DecodedInt, DecodeFrom, PrependRuns, AsInt32, TotalLength;
      hide LE, SignExtended, WordOf;
      var prev := this;
      nodes := [];
      ghost var runs: seq<Run> := [];
      ghost var goal := DecodeFrom(buf, n, 0);
      var clusterPtr, length := 0, 0;
      PrependNoRuns(goal);
      NoRunsLength();
      while clusterPtr < n
        invariant clusterPtr <= |buf|
        invariant goal == PrependRuns(runs, DecodeFrom(buf, n, clusterPtr))
        invariant Holds(nodes, runs) && Distinct(nodes)
        invariant length == TotalLength(runs) % TWO_TO_64
        invariant clusterPtr == 0 <==> runs == []
        invariant runs == [] ==> prev == this && unchanged(this)
        invariant runs != [] ==> nodes[0] == this && prev == nodes[|nodes| - 1] && IsList(nodes)
        invariant forall i | 0 < i < |nodes| :: fresh(nodes[i])
        decreases |buf| - clusterPtr
      {
        var header := buf[clusterPtr];
        if StopsDecoding(header) {
          break;
        }
        var mid := clusterPtr + 1 + LengthBytes(header);
        var end := mid + OffsetBytes(header);
        DecodeAdvance(buf, n, clusterPtr, runs);
        if end > |buf| {
          return Panic, nodes;
        }
        var clustersLen := ReadEndianUInt(buf[clusterPtr + 1..mid]);
        var clustersOff := ReadEndianInt(buf[mid..end]);
        LengthFits(buf[clusterPtr + 1..mid], header);
        OffsetDecoded(buf[clusterPtr + 1..mid], buf[mid..end]);
        ghost var run := Run(clustersOff, clustersLen);
        AddedLength(runs, run);
        length := (length + clustersLen) % TWO_TO_64;
        if clusterPtr == 0 {
          Offset, Length, Next := clustersOff, clustersLen, null;
          nodes := [this];
        } else {
          var runlist := new RunList(clustersOff, clustersLen);
          prev.Next := runlist;
          prev := runlist;
          nodes := nodes + [runlist];
        }
        runs := runs + [run];
        clusterPtr := end;
      }
      DecodeStops(buf, n, clusterPtr);
      PrependAllRuns(runs);
      r := Done(length);
    }
  }

  lemma NoRunsLength()
    ensures TotalLength([]) % TWO_TO_64 == 0
  {
  }

  lemma AddedLength(runs: seq<Run>, run: Run)
    ensures (TotalLength(runs) % TWO_TO_64 + run.length) % TWO_TO_64 == TotalLength(runs + [run]) % TWO_TO_64
  {
    TotalLengthAppend(runs, [run]);
    assert TotalLength([run]) == run.length;
  }

  lemma LengthFits(field: seq<byte>, header: byte)
    requires !StopsDecoding(header) && |field| == LengthBytes(header)
    ensures LE(field) % TWO_TO_64 == LE(field)
  {
    LEBound(field);
    PowMonotone(|field|, 8);
    PowSum(4, 4);
    Powers();
  }

  lemma OffsetDecoded(lengthField: seq<byte>, offsetField: seq<byte>)
    ensures PairRun(lengthField, offsetField) ==
            Run(AsInt32(LE(WordOf(offsetField))), LE(lengthField))
  {
  }

  /** The sign-extended word of an offset field, known to fit 32 bits. */
  ghost function WordOf(offsetField: seq<byte>): (w: seq<byte>)
    ensures w == SignExtended(offsetField) && LE(w) < TWO_TO_32
  {
    WordBound(SignExtended(offsetField));
    SignExtended(offsetField)
  }

  // ---------- Encoding ----------

  /** One mapping pair: its length field and its offset field, each of any width. */
  datatype Pair = Pair(lengthField: seq<byte>, offsetField: seq<byte>)

  /** The widths a header can announce. */
  predicate ValidPair(p: Pair)
  {
    1 <= |p.lengthField| <= 8 && |p.offsetField| <= 8
  }

  function Header(p: Pair): byte
    requires ValidPair(p)
  {
    ToByte(16 * |p.offsetField| + |p.lengthField|)
  }

  function Encode(pairs: seq<Pair>): seq<byte>
    requires forall p | p in pairs :: ValidPair(p)
  {
    if pairs == [] then []
    else [Header(pairs[0])] + pairs[0].lengthField + pairs[0].offsetField + Encode(pairs[1..])
  }

  /** The run a pair stands for: unsigned length, two's-complement offset. */
  function MeaningOf(p: Pair): Run
  {
    Run(SignedLE(p.offsetField), LE(p.lengthField))
  }

  function Meanings(pairs: seq<Pair>): (runs: seq<Run>)
    ensures |runs| == |pairs|
  {
    seq(|pairs|, i requires 0 <= i < |pairs| => MeaningOf(pairs[i]))
  }

  lemma Nibbles(h: byte)
    ensures OffsetBytes(h) == Val(h) / 16 && LengthBytes(h) == Val(h) % 16
  {
  }

  /** The headers that end a list: a length field of no bytes, as in a zero byte, or a field of more than 8. */
  lemma StopsExact(h: byte)
    ensures StopsDecoding(h) <==> Val(h) % 16 == 0 || Val(h) % 16 > 8 || Val(h) / 16 > 8
  {
    Nibbles(h);
  }

  lemma HeaderAnnouncesWidths(p: Pair)
    requires ValidPair(p)
    ensures OffsetBytes(Header(p)) == |p.offsetField| && LengthBytes(Header(p)) == |p.lengthField|
    ensures !StopsDecoding(Header(p))
  {
    Nibbles(Header(p));
  }

  lemma FieldsOf(buf: seq<byte>, at: nat, h: byte, a: seq<byte>, b: seq<byte>, tail: seq<byte>)
    requires var end := at + 1 + |a| + |b| + |tail|; end <= |buf| && buf[at..end] == [h] + a + b + tail
    ensures var mid := at + 1 + |a|;
            buf[at] == h && buf[at + 1..mid] == a && buf[mid..mid + |b|] == b &&
            buf[mid + |b|..mid + |b| + |tail|] == tail
  {
    var w := [h] + a + b + tail;
    var mid, end := at + 1 + |a|, at + |w|;
    assert buf[at] == buf[at..end][0] == w[0];
    SliceOfSlice(buf, at, end, 1, 1 + |a|);
    SliceOfSlice(buf, at, end, 1 + |a|, 1 + |a| + |b|);
    SliceOfSlice(buf, at, end, 1 + |a| + |b|, |w|);
    assert w[1..1 + |a|] == a;
    assert w[1 + |a|..1 + |a| + |b|] == b;
    assert w[1 + |a| + |b|..|w|] == tail;
  }

  /** The runs that are read for pairs. */
  function ReadRuns(pairs: seq<Pair>): (runs: seq<Run>)
    ensures |runs| == |pairs|
  {
    seq(|pairs|, i requires 0 <= i < |pairs| => PairRun(pairs[i].lengthField, pairs[i].offsetField))
  }

  /** A pair is read as the run it stands for exactly when its offset fits 32 bits. */
  lemma PairExact(p: Pair)
    ensures PairRun(p.lengthField, p.offsetField) == MeaningOf(p) <==> FitsInt32(SignedLE(p.offsetField))
  {
    hide DecodedInt, SignedLE, FitsInt32;
    DecodedIntExact(p.offsetField);
  }

  /** Decoding an encoding, wherever it stands in the record and whatever follows it. */
  lemma {:induction false} DecodeEncodedFrom(buf: seq<byte>, n: nat, at: nat, pairs: seq<Pair>)
    requires n <= |buf| && forall p | p in pairs :: ValidPair(p)
    requires at + |Encode(pairs)| <= n && buf[at..at + |Encode(pairs)|] == Encode(pairs)
    requires var end := at + |Encode(pairs)|; end == n || StopsDecoding(buf[end])
    ensures DecodeFrom(buf, n, at) == Done(ReadRuns(pairs))
    decreases |pairs|
  {
    hide StopsDecoding, OffsetBytes, LengthBytes, Header, PairRun, DecodeFrom, PrependRuns;
    if pairs == [] {
      DecodeStops(buf, n, at);
      assert ReadRuns(pairs) == [];
    } else {
      var p, rest := pairs[0], pairs[1..];
      var run := PairRun(p.lengthField, p.offsetField);
      HeaderAnnouncesWidths(p);
      FieldsOf(buf, at, Header(p), p.lengthField, p.offsetField, Encode(rest));
      var end := at + 1 + |p.lengthField| + |p.offsetField|;
      DecodeAdvance(buf, n, at, []);
      PrependNoRuns(DecodeFrom(buf, n, at));
      DecodeEncodedFrom(buf, n, end, rest);
      Joined([run], ReadRuns(rest));
      assert [] + [run] == [run];
      assert ReadRuns(pairs) == [run] + ReadRuns(rest);
    }
  }

  lemma Joined(p: seq<Run>, q: seq<Run>)
    ensures PrependRuns(p, Done(q)) == Done(p + q)
  {
  }

  /** Round trip: an encoding of any pairs, followed by the end of the attribute or by a header with a length nibble of
      zero or a nibble above 8, decodes to exactly the runs they stand for if and only if every offset fits 32 bits. */
  lemma DecodeEncoded(pairs: seq<Pair>, trailer: seq<byte>)
    requires forall p | p in pairs :: ValidPair(p)
    requires trailer == [] || Val(trailer[0]) % 16 == 0 || Val(trailer[0]) % 16 > 8 || Val(trailer[0]) / 16 > 8
    ensures var buf := Encode(pairs) + trailer;
            DecodeFrom(buf, |buf|, 0) == Done(Meanings(pairs)) <==>
            forall p | p in pairs :: FitsInt32(SignedLE(p.offsetField))
  {
    hide StopsDecoding, DecodeFrom, Encode, PairRun, SignedLE, FitsInt32;
    var code := Encode(pairs);
    var buf := code + trailer;
    if trailer != [] {
      StopsExact(trailer[0]);
    }
    assert buf[0..0 + |code|] == code;
    DecodeEncodedFrom(buf, |buf|, 0, pairs);
    forall i | 0 <= i < |pairs|
      ensures ReadRuns(pairs)[i] == Meanings(pairs)[i] <==> FitsInt32(SignedLE(pairs[i].offsetField))
    {
      PairExact(pairs[i]);
    }
    if ReadRuns(pairs) == Meanings(pairs) {
      forall p | p in pairs
        ensures FitsInt32(SignedLE(p.offsetField))
      {
        var i :| 0 <= i < |pairs| && pairs[i] == p;
        assert ReadRuns(pairs)[i] == Meanings(pairs)[i];
      }
    }
  }

  lemma {:induction false} EncodeAppend(a: seq<Pair>, b: seq<Pair>)
    requires forall p | p in a + b :: ValidPair(p)
    ensures (forall p | p in a :: ValidPair(p)) && forall p | p in b :: ValidPair(p)
    ensures Encode(a + b) == Encode(a) + Encode(b)
    decreases |a|
  {
    hide Header;
    assert forall p | p in a :: p in a + b;
    assert forall p | p in b :: p in a + b;
    if a == [] {
      assert a + b == b;
    } else {
      assert (a + b)[0] == a[0] && (a + b)[1..] == a[1..] + b;
      EncodeAppend(a[1..], b);
    }
  }

  /** From a place on there is a pair in which the attribute ends, after its header; the record may cut the pair off. */
  predicate EndsInPair(buf: seq<byte>, n: nat, from: nat, p: Pair)
    requires ValidPair(p)
  {
    var end := from + |Encode([p])|;
    from < n <= |buf| && n <= end &&
    if |buf| < end then buf[from..] == Encode([p])[..|buf| - from] else buf[from..end] == Encode([p])
  }

  /** Pairs, and one in which the attribute ends: the attribute's end stops nothing in the middle of a pair, which is read on
      to its end, the record's end faults. */
  lemma {:induction false} LastPair(buf: seq<byte>, n: nat, at: nat, pairs: seq<Pair>, last: Pair)
    requires n <= |buf| && ValidPair(last) && forall p | p in pairs :: ValidPair(p)
    requires EndsInPair(buf, n, at + |Encode(pairs)|, last)
    requires at + |Encode(pairs)| < n && buf[at..at + |Encode(pairs)|] == Encode(pairs)
    ensures DecodeFrom(buf, n, at) ==
            if |buf| < at + |Encode(pairs)| + |Encode([last])| then Panic else Done(ReadRuns(pairs + [last]))
    decreases |pairs|
  {
    hide StopsDecoding, OffsetBytes, LengthBytes, Header, PairRun, DecodeFrom, PrependRuns, EndsInPair;
    if pairs == [] {
      OnePair(buf, n, at, last);
      assert pairs + [last] == [last];
    } else {
      var p, rest := pairs[0], pairs[1..];
      var run := PairRun(p.lengthField, p.offsetField);
      HeaderAnnouncesWidths(p);
      FieldsOf(buf, at, Header(p), p.lengthField, p.offsetField, Encode(rest));
      var end := at + 1 + |p.lengthField| + |p.offsetField|;
      DecodeAdvance(buf, n, at, []);
      PrependNoRuns(DecodeFrom(buf, n, at));
      LastPair(buf, n, end, rest, last);
      assert [] + [run] == [run];
      if DecodeFrom(buf, n, end).Done? {
        Joined([run], ReadRuns(rest + [last]));
        assert ReadRuns(pairs + [last]) == [run] + ReadRuns(rest + [last]);
      } else {
        PanicStays([run]);
      }
    }
  }

  lemma PanicStays(p: seq<Run>)
    ensures PrependRuns(p, Panic) == Panic
  {
  }

  lemma OneCode(p: Pair)
    requires ValidPair(p)
    ensures Encode([p]) == [Header(p)] + p.lengthField + p.offsetField
  {
    assert [p][1..] == [] && Encode([]) == [];
  }

  lemma OnePair(buf: seq<byte>, n: nat, at: nat, p: Pair)
    requires n <= |buf| && ValidPair(p) && EndsInPair(buf, n, at, p)
    ensures DecodeFrom(buf, n, at) == if |buf| < at + |Encode([p])| then Panic else Done(ReadRuns([p]))
  {
    hide StopsDecoding, OffsetBytes, LengthBytes, Header, PairRun, DecodeFrom, PrependRuns;
    OneCode(p);
    HeaderAnnouncesWidths(p);
    assert buf[at] == Header(p);
    DecodeAdvance(buf, n, at, []);
    PrependNoRuns(DecodeFrom(buf, n, at));
    var end := at + |Encode([p])|;
    if end <= |buf| {
      assert buf[at..end] == [Header(p)] + p.lengthField + p.offsetField + [];
      FieldsOf(buf, at, Header(p), p.lengthField, p.offsetField, []);
      var run := PairRun(p.lengthField, p.offsetField);
      assert end == at + 1 + |p.lengthField| + |p.offsetField|;
      DecodeStops(buf, n, end);
      PrependAllRuns([] + [run]);
      assert ReadRuns([p]) == [run] == [] + [run];
    }
  }
}
