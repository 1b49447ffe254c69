/**
 * The `Net2AXIS` converter object (tool/net2axis.py): its settings, the
 * list of parsed packets it accumulates, and the trace it writes, one
 * `M: pkt=N, delay=D` header line before each packet's records.
 */
module Tool {
  import opened Wrappers
  import opened Hex
  import opened Words
  import opened Encoder

  /**
   * The keyword arguments of `Net2AXIS(...)`; an absent one takes its
   * default. The delays are kept as the text they print as.
   */
  datatype Options = Options(
    datawidth: Option<int>,
    extension: Option<string>,
    endianness: Option<string>,
    initdelay: Option<string>,
    delay: Option<string>)

  const DEFAULT_DATAWIDTH: int := 32
  const DEFAULT_EXTENSION: string := "dat"
  const DEFAULT_ENDIANNESS: string := "little"
  const DEFAULT_INITDELAY: string := "0"
  const DEFAULT_DELAY: string := "10"

  /** The header line that opens the block of the packet with 1-based number `pkt`. */
  function Header(pkt: nat, delay: string): string {
    "M: pkt=" + Decimal(pkt) + ", delay=" + delay
  }

  /** The delay written for the packet at 0-based position `i`. */
  function DelayFor(i: nat, initdelay: string, delay: string): string {
    if i == 0 then initdelay else delay
  }

  /** The lines `output` writes for `parsed`: per packet, its header and then its records. */
  function TraceLines(parsed: seq<seq<string>>, initdelay: string, delay: string): (lines: seq<string>)
    decreases |parsed|
  {
    if parsed == [] then []
    else
      var i := |parsed| - 1;
      TraceLines(parsed[..i], initdelay, delay) + [Header(i + 1, DelayFor(i, initdelay, delay))] + parsed[i]
  }

  /** The number of records of all packets. */
  function RecordCount(parsed: seq<seq<string>>): nat {
    if parsed == [] then 0 else RecordCount(parsed[..|parsed| - 1]) + |parsed[|parsed| - 1]|
  }

  /** The lines of the first `k` packets come first, unchanged, in the lines of all. */
  lemma {:induction false} TraceLinesPrefix(parsed: seq<seq<string>>, k: nat, initdelay: string, delay: string)
    requires k <= |parsed|
    ensures TraceLines(parsed[..k], initdelay, delay) <= TraceLines(parsed, initdelay, delay)
    decreases |parsed|
  {
    if k < |parsed| {
      var i := |parsed| - 1;
      TraceLinesPrefix(parsed[..i], k, initdelay, delay);
      assert parsed[..i][..k] == parsed[..k];
    } else {
      assert parsed[..k] == parsed;
    }
  }

  /** One header per packet plus one line per record. */
  lemma {:induction false} TraceLinesLength(parsed: seq<seq<string>>, initdelay: string, delay: string)
    ensures |TraceLines(parsed, initdelay, delay)| == |parsed| + RecordCount(parsed)
    decreases |parsed|
  {
    if parsed != [] {
      TraceLinesLength(parsed[..|parsed| - 1], initdelay, delay);
    }
  }

  /**
   * Where packet `i` sits in the trace: after the lines of packets `0..i-1`
   * come its header, numbered `i + 1` and carrying the initial delay for
   * the first packet and the inter-packet delay for every other, and then
   * its records in order.
   */
  lemma TraceLinesBlock(parsed: seq<seq<string>>, i: nat, initdelay: string, delay: string)
    requires i < |parsed|
    ensures var lines := TraceLines(parsed, initdelay, delay);
            var at := |TraceLines(parsed[..i], initdelay, delay)|;
            at + 1 + |parsed[i]| <= |lines| &&
            lines[at] == Header(i + 1, if i == 0 then initdelay else delay) &&
            lines[at + 1..at + 1 + |parsed[i]|] == parsed[i]
  {
    var lines := TraceLines(parsed, initdelay, delay);
    var upto := TraceLines(parsed[..i + 1], initdelay, delay);
    TraceLinesPrefix(parsed, i + 1, initdelay, delay);
    assert parsed[..i + 1][..i] == parsed[..i];
    var at := |TraceLines(parsed[..i], initdelay, delay)|;
    assert upto == TraceLines(parsed[..i], initdelay, delay) + [Header(i + 1, DelayFor(i, initdelay, delay))] + parsed[i];
    assert lines[..|upto|] == upto;
    assert upto[at] == Header(i + 1, DelayFor(i, initdelay, delay));
    assert upto[at + 1..] == parsed[i];
  }

  /** A header line is recognised by its first character, `M`. */
  predicate IsHeader(line: string) {
    |line| > 0 && line[0] == 'M'
  }

  /** The number of header lines in `lines`. */
  function HeaderCount(lines: seq<string>): nat {
    if lines == [] then 0 else HeaderCount(lines[..|lines| - 1]) + (if IsHeader(lines[|lines| - 1]) then 1 else 0)
  }

  lemma {:induction false} HeaderCountAppend(a: seq<string>, b: seq<string>)
    ensures HeaderCount(a + b) == HeaderCount(a) + HeaderCount(b)
    decreases |b|
  {
    if b == [] {
      assert a + b == a;
    } else {
      var b' := b[..|b| - 1];
      assert (a + b)[..|a + b| - 1] == a + b';
      HeaderCountAppend(a, b');
    }
  }

  /**
   * When no record line starts with `M`, the trace holds exactly one
   * header line per packet, so a reader can find every packet's block.
   */
  lemma {:induction false} OneHeaderPerPacket(parsed: seq<seq<string>>, initdelay: string, delay: string)
    requires forall i, j :: 0 <= i < |parsed| && 0 <= j < |parsed[i]| ==> !IsHeader(parsed[i][j])
    ensures HeaderCount(TraceLines(parsed, initdelay, delay)) == |parsed|
    decreases |parsed|
  {
    if parsed != [] {
      var i := |parsed| - 1;
      var front := TraceLines(parsed[..i], initdelay, delay);
      var header := Header(i + 1, DelayFor(i, initdelay, delay));
      OneHeaderPerPacket(parsed[..i], initdelay, delay);
      HeaderCountAppend(front + [header], parsed[i]);
      HeaderCountAppend(front, [header]);
      assert HeaderCount([header]) == 1 by {
        assert [header][..0] == [];
      }
      NoHeaders(parsed[i]);
    }
  }

  lemma {:induction false} NoHeaders(lines: seq<string>)
    requires forall j :: 0 <= j < |lines| ==> !IsHeader(lines[j])
    ensures HeaderCount(lines) == 0
    decreases |lines|
  {
    if lines != [] {
      NoHeaders(lines[..|lines| - 1]);
    }
  }

  /** On a bus of whole bytes every record line starts with a hex digit, never with `M`. */
  lemma RecordsAreNotHeaders(pkt: seq<byte>, m: nat, endianness: int)
    requires m > 0
    ensures forall j :: 0 <= j < |Records(pkt, 8 * m, endianness)| ==> !IsHeader(Records(pkt, 8 * m, endianness)[j])
  {
    var rec := Records(pkt, 8 * m, endianness);
    var bw := Chunks(pkt, m);
    ChunksShape(pkt, m);
    EncodeBytes(pkt, m, endianness);
    forall j | 0 <= j < |rec| ensures !IsHeader(rec[j]) {
      var w := InBusOrder(bw[j], endianness);
      assert |w| == |bw[j]| > 0;
      assert rec[j][0] == Hexlify(w)[0] == DigitChar(w[0] as int / 16);
    }
  }

  /** The records of every packet, in capture order. */
  function AllRecords(pkts: seq<seq<byte>>, datawidth: int, endianness: int): (r: seq<seq<string>>)
    requires NibbleOffset(datawidth) != 0 || pkts == []
    ensures |r| == |pkts|
  {
    if pkts == [] then []
    else AllRecords(pkts[..|pkts| - 1], datawidth, endianness) + [Records(pkts[|pkts| - 1], datawidth, endianness)]
  }

  /** Entry `i` of the parsed list is the record list of packet `i`. */
  lemma {:induction false} AllRecordsAt(pkts: seq<seq<byte>>, datawidth: int, endianness: int, i: nat)
    requires NibbleOffset(datawidth) != 0 && i < |pkts|
    ensures AllRecords(pkts, datawidth, endianness)[i] == Records(pkts[i], datawidth, endianness)
    decreases |pkts|
  {
    if i < |pkts| - 1 {
      AllRecordsAt(pkts[..|pkts| - 1], datawidth, endianness, i);
    }
  }

  /** Parsing packet `k` successfully extends the record lists of packets `0..k-1` by its own. */
  lemma ParseStep(before: seq<seq<string>>, pkts: seq<seq<byte>>, k: nat, datawidth: int, endianness: int, recs: seq<string>)
    requires k < |pkts| && ParsePkt(pkts[k], datawidth, endianness) == Success(recs)
    ensures before + AllRecords(pkts[..k + 1], datawidth, endianness) ==
            (before + AllRecords(pkts[..k], datawidth, endianness)) + [recs]
  {
    assert pkts[..k + 1][..k] == pkts[..k];
    assert pkts[..k + 1][k] == pkts[k];
  }

  class Net2Axis {
    var pcapfile: string
    var datawidth: int
    var extension: string
    var endianness: int
    var pkts: Option<seq<seq<byte>>>
    var parsed: seq<seq<string>>
    var initdelay: string
    var delay: string
    var outputfile: string

    /**
     * The byte-order code is one that `_check_endianness` returns, and the
     * output file name is derived from the capture's path and the extension.
     */
    ghost predicate Valid()
      reads this
    {
      (endianness == END_BIG || endianness == END_LITTLE) &&
      outputfile == OutputFileName(pcapfile, extension)
    }

    /**
     * `__init__` once the byte-order name has passed `_check_endianness`;
     * `New` is the call that may fail.
     */
    constructor (pcapfile: string, opts: Options)
      requires CheckEndianness(opts.endianness.GetOr(DEFAULT_ENDIANNESS)).Success?
      ensures Valid()
      ensures this.pcapfile == pcapfile
      ensures datawidth == opts.datawidth.GetOr(DEFAULT_DATAWIDTH)
      ensures extension == opts.extension.GetOr(DEFAULT_EXTENSION)
      ensures endianness == CheckEndianness(opts.endianness.GetOr(DEFAULT_ENDIANNESS)).value
      ensures initdelay == opts.initdelay.GetOr(DEFAULT_INITDELAY)
      ensures delay == opts.delay.GetOr(DEFAULT_DELAY)
      ensures pkts == None && parsed == []
      ensures outputfile == OutputFileName(pcapfile, extension)
    {
      this.pcapfile := pcapfile;
      datawidth := opts.datawidth.GetOr(DEFAULT_DATAWIDTH);
      extension := opts.extension.GetOr(DEFAULT_EXTENSION);
      endianness := CheckEndianness(opts.endianness.GetOr(DEFAULT_ENDIANNESS)).value;
      pkts := None;
      parsed := [];
      initdelay := opts.initdelay.GetOr(DEFAULT_INITDELAY);
      delay := opts.delay.GetOr(DEFAULT_DELAY);
      outputfile := OutputFileName(pcapfile, opts.extension.GetOr(DEFAULT_EXTENSION));
    }

    /** `Net2AXIS(pcapfile, **opts)`: a converter, or the error an unknown byte-order name raises. */
    static method New(pcapfile: string, opts: Options) returns (r: Result<Net2Axis, Error>)
      ensures r.Failure? <==> opts.endianness.GetOr(DEFAULT_ENDIANNESS) !in {"big", "little"}
      ensures r.Failure? ==> r.error == InvalidEndianness(opts.endianness.GetOr(DEFAULT_ENDIANNESS))
      ensures r.Success? ==> fresh(r.value) && r.value.Valid() && r.value.pcapfile == pcapfile &&
                             r.value.datawidth == opts.datawidth.GetOr(DEFAULT_DATAWIDTH) &&
                             r.value.extension == opts.extension.GetOr(DEFAULT_EXTENSION) &&
                             r.value.endianness == CheckEndianness(opts.endianness.GetOr(DEFAULT_ENDIANNESS)).value &&
                             r.value.initdelay == opts.initdelay.GetOr(DEFAULT_INITDELAY) &&
                             r.value.delay == opts.delay.GetOr(DEFAULT_DELAY) &&
                             r.value.pkts == None && r.value.parsed == [] &&
                             r.value.outputfile == OutputFileName(pcapfile, r.value.extension)
    {
      var checked := CheckEndianness(opts.endianness.GetOr(DEFAULT_ENDIANNESS));
      if checked.Failure? {
        return Failure(checked.error);
      }
      var net := new Net2Axis(pcapfile, opts);
      return Success(net);
    }

    /** `loadpcapfile`, with the frames `rdpcap` would read passed in. */
    method LoadPcapFile(frames: seq<seq<byte>>)
      modifies this`pkts
      ensures pkts == Some(frames)
    {
      pkts := Some(frames);
    }

    /**
     * `parse`: appends the records of each loaded packet to `parsed`, in
     * capture order; when a bus word would hold no hex digit the first
     * packet already raises and `parsed` is left as it was.
     */
    method Parse() returns (err: Option<Error>)
      requires Valid() && pkts.Some?
      modifies this`parsed
      ensures Valid()
      ensures err.Some? <==> 0 <= datawidth < 4 && |pkts.value| > 0
      ensures err.Some? ==> err.value == ZeroRangeStep && parsed == old(parsed)
      ensures err.None? ==> parsed == old(parsed) + AllRecords(pkts.value, datawidth, endianness)
    {
      var frames, width, order := pkts.value, datawidth, endianness;
      ghost var before := parsed;
      for k := 0 to |frames|
        invariant k > 0 ==> NibbleOffset(width) != 0
        invariant parsed == before + AllRecords(frames[..k], width, order)
      {
        match ParsePkt(frames[k], width, order)
        case Failure(e) =>
          assert frames[..k] == [];
          return Some(e);
        case Success(recs) =>
          ParseStep(before, frames, k, width, order, recs);
          parsed := parsed + [recs];
      }
      assert frames[..|frames|] == frames;
      return None;
    }

    /** `output`: the lines written to the output file, header before each packet's records. */
    method Output() returns (lines: seq<string>)
      ensures lines == TraceLines(parsed, initdelay, delay)
    {
      lines := [];
      for i := 0 to |parsed|
        invariant lines == TraceLines(parsed[..i], initdelay, delay)
      {
        var pkt := parsed[i];
        var d := if i == 0 then initdelay else delay;
        lines := lines + [Header(i + 1, d)];
        for j := 0 to |pkt|
          invariant lines == TraceLines(parsed[..i], initdelay, delay) + [Header(i + 1, d)] + pkt[..j]
        {
          lines := lines + [pkt[j]];
        }
        assert parsed[..i + 1][..i] == parsed[..i];
      }
      assert parsed[..|parsed|] == parsed;
    }

    /** `run`: load the frames, parse them and produce the trace. */
    method Run(frames: seq<seq<byte>>) returns (r: Result<seq<string>, Error>)
      requires Valid()
      modifies this`pkts, this`parsed
      ensures Valid()
      ensures pkts == Some(frames)
      ensures r.Failure? <==> 0 <= datawidth < 4 && |frames| > 0
      ensures r.Failure? ==> r.error == ZeroRangeStep && parsed == old(parsed)
      ensures r.Success? ==>
        parsed == old(parsed) + AllRecords(frames, datawidth, endianness) &&
        r.value == TraceLines(parsed, initdelay, delay)
    {
      LoadPcapFile(frames);
      var err := Parse();
      if err.Some? {
        return Failure(err.value);
      }
      var lines := Output();
      return Success(lines);
    }
  }
}
