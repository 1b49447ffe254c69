/**
 * The packet encoder of `Net2AXIS` (tool/net2axis.py): validation of the
 * byte-order name, the output file name, and `_parsepkt`, which turns the
 * bytes of one packet into `data,keep,last` records of an AXI-Stream bus.
 * Everything here is a value computation; the word-by-word byte-order loop
 * is also given as a method.
 */
module Encoder {
  import opened Wrappers
  import opened Hex
  import opened Words

  /** `Net2AXIS.END_BIG` and `Net2AXIS.END_LITTLE`. */
  const END_BIG: int := 0
  const END_LITTLE: int := 1

  /** `Net2AXIS.endianness`: the accepted byte-order names and their codes. */
  const EndiannessNames: map<string, int> := map["big" := END_BIG, "little" := END_LITTLE]

  /** The exceptions the encoder raises. */
  datatype Error =
    | InvalidEndianness(name: string)  // ValueError from `_check_endianness`
    | ZeroRangeStep                    // ValueError from `range` when `datawidth / 4` is 0

  /** `_check_endianness`: `big` is 0, `little` is 1, any other name is refused. */
  function CheckEndianness(name: string): (r: Result<int, Error>)
    ensures r.Success? <==> name == "big" || name == "little"
    ensures r == Success(END_BIG) <==> name == "big"
    ensures r == Success(END_LITTLE) <==> name == "little"
    ensures r.Failure? ==> r.error == InvalidEndianness(name)
  {
    if name in EndiannessNames then Success(EndiannessNames[name]) else Failure(InvalidEndianness(name))
  }

  // ---------------------------------------------------------------------
  // Output file name

  /** Index of the last `c` in `s`, or -1 (Python's `str.rfind`). */
  function LastIndexOf(s: string, c: char): (k: int)
    ensures -1 <= k < |s|
    ensures k >= 0 ==> s[k] == c
    ensures forall j :: k < j < |s| ==> s[j] != c
  {
    if s == [] then -1 else if s[|s| - 1] == c then |s| - 1 else LastIndexOf(s[..|s| - 1], c)
  }

  /**
   * A path whose last component has an extension in the sense of
   * `os.path.splitext`: in that component, a `.` preceded somewhere by a
   * character other than `.` (so `.profile` and `..` have none).
   */
  ghost predicate HasExtension(path: string) {
    exists j, k :: 0 <= j < k < |path| && path[j] != '.' && path[k] == '.' && '/' !in path[j..]
  }

  /**
   * The path without the extension of its last component, as
   * `os.path.splitext` computes it: the path up to its last `.`, when
   * that `.` ends an extension; the whole path otherwise.
   */
  function Stem(path: string): (stem: string)
    ensures stem <= path
    ensures stem != path ==> path[|stem|] == '.' && '.' !in path[|stem| + 1..]
    ensures forall j :: |stem| <= j < |path| ==> path[j] != '/'
    ensures stem == path <==> !HasExtension(path)
  {
    var slash := LastIndexOf(path, '/');
    var dot := LastIndexOf(path, '.');
    if slash < dot && exists j :: slash < j < dot && path[j] != '.' then
      var j :| slash < j < dot && path[j] != '.';
      assert '/' !in path[j..] by {
        forall i | j <= i < |path| ensures path[i] != '/' {
          assert path[j..][i - j] == path[i];
        }
      }
      assert HasExtension(path) by {
        assert 0 <= j < dot < |path| && path[j] != '.' && path[dot] == '.' && '/' !in path[j..];
      }
      path[..dot]
    else
      assert !HasExtension(path) by {
        forall j, k | 0 <= j < k < |path| && path[j] != '.' && path[k] == '.'
          ensures '/' in path[j..]
        {
          assert k <= dot;
          if j <= slash {
            assert path[j..][slash - j] == '/';
          }
        }
      }
      path
  }

  /**
   * The output file name: the input path with the extension of its last
   * component replaced by `extension` (or `.` and `extension` appended
   * when it has none), in the input's own directory.
   */
  function OutputFileName(path: string, extension: string): (name: string)
    ensures name == Stem(path) + "." + extension
    ensures HasExtension(path) ==> |name| == LastIndexOf(path, '.') + 1 + |extension| &&
                                   name[..LastIndexOf(path, '.') + 1] == path[..LastIndexOf(path, '.') + 1]
    ensures !HasExtension(path) ==> name == path + "." + extension
  {
    Stem(path) + "." + extension
  }

  // ---------------------------------------------------------------------
  // Cutting a packet into bus words

  /** `datawidth / 4` in Python 2: the number of hex digits in a bus word, rounded down. */
  function NibbleOffset(datawidth: int): (r: int)
    ensures 4 * r <= datawidth < 4 * r + 4
  {
    datawidth / 4
  }

  /**
   * `[content[i:i+step] for i in range(0, len(content), step)]` for a
   * non-zero step; a negative step gives an empty range.
   */
  function Slices(content: string, step: int): seq<string>
    requires step != 0
  {
    if step > 0 then Chunks(content, step) else []
  }

  /** What `_switch_endianness` returns: each word with its two-digit groups reversed. */
  function Switched(words: seq<string>): (r: seq<string>)
  {
    seq(|words|, i requires 0 <= i < |words| => ReverseGroups(words[i]))
  }

  /** `_switch_endianness`: a loop appending each transformed word to `ret`. */
  method SwitchEndianness(words: seq<string>) returns (ret: seq<string>)
    ensures ret == Switched(words)
    ensures |ret| == |words| && forall i :: 0 <= i < |words| ==> |ret[i]| == |words[i]|
  {
    ret := [];
    for k := 0 to |words|
      invariant |ret| == k
      invariant forall i :: 0 <= i < k ==> ret[i] == ReverseGroups(words[i])
      invariant forall i :: 0 <= i < k ==> |ret[i]| == |words[i]|
    {
      var w := words[k];
      ReverseGroupsLength(w);
      ret := ret + [ReverseGroups(w)];
    }
  }

  /** Switching keeps the number of words and the length of each. */
  lemma SwitchedShape(words: seq<string>)
    ensures |Switched(words)| == |words|
    ensures forall i :: 0 <= i < |words| ==> |Switched(words)[i]| == |words[i]|
  {
    forall i | 0 <= i < |words| ensures |Switched(words)[i]| == |words[i]| {
      ReverseGroupsLength(words[i]);
    }
  }

  /** Switching twice gives the words back when every word has an even length. */
  lemma SwitchedInvolutive(words: seq<string>)
    requires forall i :: 0 <= i < |words| ==> |words[i]| % 2 == 0
    ensures Switched(Switched(words)) == words
  {
    SwitchedShape(words);
    forall i | 0 <= i < |words| ensures Switched(Switched(words))[i] == words[i] {
      ReverseGroupsInvolutive(words[i]);
    }
  }

  // ---------------------------------------------------------------------
  // The record fields of `_parsepkt`

  /** `_tdata`: the packet's words, byte-swapped for a little-endian bus. */
  function TData(content: string, step: int, endianness: int): seq<string>
    requires step != 0
  {
    var words := Slices(content, step);
    if endianness == END_LITTLE then Switched(words) else words
  }

  /** The keep field for a word: `hex(2**(len(w)/2)-1)` without its `0x`. */
  function KeepOf(word: string): string {
    MaskHex(|word| / 2)
  }

  /** `_tkeep`. */
  function TKeep(tdata: seq<string>): (r: seq<string>)
    ensures |r| == |tdata|
  {
    seq(|tdata|, i requires 0 <= i < |tdata| => KeepOf(tdata[i]))
  }

  /** Python's `s[:-1]`. */
  function DropLast<T>(s: seq<T>): seq<T> {
    if s == [] then [] else s[..|s| - 1]
  }

  /** `_tlast`: a `0` for every word but the last, then one `1` (also for no words). */
  function TLast(tdata: seq<string>): (r: seq<string>)
    ensures |r| == if tdata == [] then 1 else |tdata|
    ensures r[|r| - 1] == "1" && forall i :: 0 <= i < |r| - 1 ==> r[i] == "0"
  {
    seq(|DropLast(tdata)|, _ => "0") + ["1"]
  }

  /** One `data,keep,last` record. */
  function Record(data: string, keep: string, last: string): string {
    data + "," + keep + "," + last
  }

  /** The records of one packet for a bus of `datawidth` bits. */
  function Records(pkt: seq<byte>, datawidth: int, endianness: int): seq<string>
    requires NibbleOffset(datawidth) != 0
  {
    var tdata := TData(Hexlify(pkt), NibbleOffset(datawidth), endianness);
    var tkeep := TKeep(tdata);
    var tlast := TLast(tdata);
    seq(|tdata|, i requires 0 <= i < |tdata| => Record(tdata[i], tkeep[i], tlast[i]))
  }

  /**
   * `_parsepkt`: the records of one packet, or the error `range` raises
   * when a bus word would hold no hex digit at all (0 <= datawidth < 4).
   */
  function ParsePkt(pkt: seq<byte>, datawidth: int, endianness: int): (r: Result<seq<string>, Error>)
    ensures r.Failure? <==> 0 <= datawidth < 4
    ensures r.Failure? ==> r.error == ZeroRangeStep
  {
    if NibbleOffset(datawidth) == 0 then Failure(ZeroRangeStep)
    else Success(Records(pkt, datawidth, endianness))
  }

  // ---------------------------------------------------------------------
  // Properties of the encoder

  /**
   * Before any byte-order switch, the words join back to the hexlified
   * packet; on a bus of a whole number of bytes every word but the last
   * has `datawidth / 4` digits and the last has an even number from 2 up.
   */
  lemma UnswitchedWords(pkt: seq<byte>, datawidth: int)
    requires datawidth >= 8 && NibbleOffset(datawidth) % 2 == 0
    ensures var n := NibbleOffset(datawidth);
            var ws := Slices(Hexlify(pkt), n);
            Flatten(ws) == Hexlify(pkt) &&
            (forall i :: 0 <= i < |ws| - 1 ==> |ws[i]| == n) &&
            (ws != [] ==> 2 <= |ws[|ws| - 1]| <= n && |ws[|ws| - 1]| % 2 == 0)
  {
    ChunksShape(Hexlify(pkt), NibbleOffset(datawidth));
    ChunksEven(Hexlify(pkt), NibbleOffset(datawidth));
  }

  /** The keep fields are the same whether computed before or after the switch. */
  lemma KeepIgnoresSwitch(words: seq<string>)
    ensures TKeep(Switched(words)) == TKeep(words)
  {
    SwitchedShape(words);
  }

  /**
   * A packet gives one record per bus word: as many records as there are
   * `datawidth / 4`-digit slices of its hex, so none for an empty packet
   * (or a negative width) and otherwise `c` records with
   * `(c - 1) * n < 2 * |pkt| <= c * n` for `n` digits per word.
   */
  lemma RecordsCount(pkt: seq<byte>, datawidth: int, endianness: int)
    requires NibbleOffset(datawidth) != 0
    ensures var n := NibbleOffset(datawidth);
            var rec := Records(pkt, datawidth, endianness);
            |rec| == |Slices(Hexlify(pkt), n)| &&
            (rec == [] <==> pkt == [] || datawidth < 0) &&
            (n > 0 && pkt != [] ==> (|rec| - 1) * n < 2 * |pkt| <= |rec| * n)
  {
    var n := NibbleOffset(datawidth);
    var h := Hexlify(pkt);
    var ws := Slices(h, n);
    var rec := Records(pkt, datawidth, endianness);
    assert |rec| == |ws| by {
      SwitchedShape(ws);
    }
    assert |h| == 2 * |pkt|;
    if n > 0 && pkt != [] {
      ChunkCount(h, n);
      assert (|ws| - 1) * n < |h| <= |ws| * n;
    }
  }

  /** Record `i` holds word `i`, that word's keep mask, and the flag `1` only on the final word. */
  lemma RecordsFields(pkt: seq<byte>, datawidth: int, endianness: int)
    requires NibbleOffset(datawidth) != 0
    ensures var tdata := TData(Hexlify(pkt), NibbleOffset(datawidth), endianness);
            var rec := Records(pkt, datawidth, endianness);
            |rec| == |tdata| &&
            forall i :: 0 <= i < |rec| ==>
              rec[i] == Record(tdata[i], KeepOf(tdata[i]), if i == |rec| - 1 then "1" else "0")
  {
    var tdata := TData(Hexlify(pkt), NibbleOffset(datawidth), endianness);
    var tlast := TLast(tdata);
    assert forall i :: 0 <= i < |tdata| ==> tlast[i] == if i == |tdata| - 1 then "1" else "0";
  }

  lemma RecordEnd(data: string, keep: string, last: string)
    ensures |Record(data, keep, last)| >= |last| + 1
    ensures Record(data, keep, last)[|Record(data, keep, last)| - |last| - 1..] == "," + last
  {
    assert Record(data, keep, last) == (data + "," + keep) + ("," + last);
  }

  /** Exactly the final record of a packet ends in `,1`; all others end in `,0`. */
  lemma LastFlagOnce(pkt: seq<byte>, datawidth: int, endianness: int)
    requires NibbleOffset(datawidth) != 0
    ensures var rec := Records(pkt, datawidth, endianness);
            forall i :: 0 <= i < |rec| ==>
              |rec[i]| >= 2 && rec[i][|rec[i]| - 2..] == (if i == |rec| - 1 then ",1" else ",0")
  {
    var tdata := TData(Hexlify(pkt), NibbleOffset(datawidth), endianness);
    var tkeep := TKeep(tdata);
    var tlast := TLast(tdata);
    var rec := Records(pkt, datawidth, endianness);
    assert |rec| == |tdata|;
    forall i | 0 <= i < |rec|
      ensures |rec[i]| >= 2 && rec[i][|rec[i]| - 2..] == (if i == |rec| - 1 then ",1" else ",0")
    {
      assert rec[i] == Record(tdata[i], tkeep[i], tlast[i]);
      assert tlast[i] == if i == |rec| - 1 then "1" else "0";
      RecordEnd(tdata[i], tkeep[i], tlast[i]);
    }
  }

  // ---------------------------------------------------------------------
  // The encoder at byte level

  /** The hex of each byte of a sequence, one two-digit string per byte. */
  function Pairs(bs: seq<byte>): (r: seq<string>)
    ensures |r| == |bs| && forall i :: 0 <= i < |bs| ==> r[i] == HexPair(bs[i])
  {
    seq(|bs|, i requires 0 <= i < |bs| => HexPair(bs[i]))
  }

  lemma {:induction false} HexlifyPairs(bs: seq<byte>)
    ensures Hexlify(bs) == Flatten(Pairs(bs))
    decreases |bs|
  {
    if bs != [] {
      HexlifyPairs(bs[1..]);
      assert Pairs(bs)[1..] == Pairs(bs[1..]);
    }
  }

  /** Reversing the two-digit groups of a hexlified word reverses its bytes. */
  lemma ReverseGroupsOfHexlify(bs: seq<byte>)
    ensures ReverseGroups(Hexlify(bs)) == Hexlify(Reverse(bs))
  {
    HexlifyPairs(bs);
    HexlifyPairs(Reverse(bs));
    ChunksOfFlatten(Pairs(bs), 2);
    ReversePairs(bs);
  }

  lemma ReversePairs(bs: seq<byte>)
    ensures Reverse(Pairs(bs)) == Pairs(Reverse(bs))
  {
    var l, r := Reverse(Pairs(bs)), Pairs(Reverse(bs));
    assert |l| == |r|;
    forall i | 0 <= i < |l| ensures l[i] == r[i] {
      assert l[i] == HexPair(bs[|bs| - 1 - i]);
    }
  }

  /** Slicing the hex `2m` digits at a time is hexlifying the bytes sliced `m` at a time. */
  lemma {:induction false} ChunksOfHexlify(bs: seq<byte>, m: nat)
    requires m > 0
    ensures var bw := Chunks(bs, m);
            Chunks(Hexlify(bs), 2 * m) == seq(|bw|, i requires 0 <= i < |bw| => Hexlify(bw[i]))
    decreases |bs|
  {
    var h := Hexlify(bs);
    if |bs| > m {
      HexlifyAppend(bs[..m], bs[m..]);
      assert bs == bs[..m] + bs[m..];
      assert h[..2 * m] == Hexlify(bs[..m]) && h[2 * m..] == Hexlify(bs[m..]);
      ChunksOfHexlify(bs[m..], m);
    }
  }

  /** The bytes of a bus word in the order the bus carries them. */
  function InBusOrder(word: seq<byte>, endianness: int): seq<byte> {
    if endianness == END_LITTLE then Reverse(word) else word
  }

  /** The words of `_tdata` on a bus of `8m` bits, stated on bytes. */
  lemma TDataBytes(pkt: seq<byte>, m: nat, endianness: int)
    requires m > 0
    ensures var bw := Chunks(pkt, m);
            var tdata := TData(Hexlify(pkt), 2 * m, endianness);
            |tdata| == |bw| &&
            forall i :: 0 <= i < |bw| ==> tdata[i] == Hexlify(InBusOrder(bw[i], endianness))
  {
    var bw := Chunks(pkt, m);
    ChunksOfHexlify(pkt, m);
    if endianness == END_LITTLE {
      forall i | 0 <= i < |bw|
        ensures ReverseGroups(Hexlify(bw[i])) == Hexlify(Reverse(bw[i]))
      {
        ReverseGroupsOfHexlify(bw[i]);
      }
    }
  }

  /**
   * What `_parsepkt` does, stated on bytes, for a bus of `8m` bits: the
   * packet is cut into words of `m` bytes (the last one shorter), record
   * `i` carries word `i` in hex, with its bytes fully reversed on a
   * little-endian bus, the mask 2^c - 1 for its `c` bytes, and the flag
   * `1` exactly on the final word.
   */
  lemma EncodeBytes(pkt: seq<byte>, m: nat, endianness: int)
    requires m > 0
    ensures var bw := Chunks(pkt, m);
            var rec := Records(pkt, 8 * m, endianness);
            |rec| == |bw| &&
            forall i :: 0 <= i < |bw| ==>
              rec[i] == Record(Hexlify(InBusOrder(bw[i], endianness)), MaskHex(|bw[i]|),
                               if i == |bw| - 1 then "1" else "0")
  {
    var bw := Chunks(pkt, m);
    var rec := Records(pkt, 8 * m, endianness);
    var tdata := TData(Hexlify(pkt), 2 * m, endianness);
    assert NibbleOffset(8 * m) == 2 * m;
    TDataBytes(pkt, m, endianness);
    RecordsFields(pkt, 8 * m, endianness);
    forall i | 0 <= i < |bw|
      ensures rec[i] == Record(Hexlify(InBusOrder(bw[i], endianness)), MaskHex(|bw[i]|),
                               if i == |bw| - 1 then "1" else "0")
    {
      assert tdata[i] == Hexlify(InBusOrder(bw[i], endianness));
      var w := InBusOrder(bw[i], endianness);
      assert |w| == |bw[i]|;
      assert |tdata[i]| == 2 * |w|;
      assert |tdata[i]| / 2 == |bw[i]|;
    }
  }

  /**
   * Six bytes on a 32-bit little-endian bus: a full word with its four
   * bytes reversed and mask `f`, then a two-byte word reversed, mask `3`.
   */
  lemma LittleEndianExample(pkt: seq<byte>)
    requires pkt == [0x11, 0x22, 0x33, 0x44, 0x55, 0x66]
    ensures Records(pkt, 32, END_LITTLE) == ["44332211,f,0", "6655,3,1"]
  {
    TwoWords(pkt, 4, END_LITTLE);
    assert pkt[..4] == [0x11, 0x22, 0x33, 0x44] && pkt[4..] == [0x55, 0x66];
    ReversedHexExample();
    MaskExamples();
    RecordLiterals();
  }

  /** A packet of more than one and at most two words gives exactly two records. */
  lemma TwoWords(pkt: seq<byte>, m: nat, endianness: int)
    requires 0 < m < |pkt| <= 2 * m
    ensures Records(pkt, 8 * m, endianness) ==
            [Record(Hexlify(InBusOrder(pkt[..m], endianness)), MaskHex(m), "0"),
             Record(Hexlify(InBusOrder(pkt[m..], endianness)), MaskHex(|pkt| - m), "1")]
  {
    var rec := Records(pkt, 8 * m, endianness);
    var bw := Chunks(pkt, m);
    assert bw == [pkt[..m], pkt[m..]] by {
      ChunksUnfold(pkt, m);
    }
    EncodeBytes(pkt, m, endianness);
    assert |rec| == 2;
    assert rec[0] == Record(Hexlify(InBusOrder(bw[0], endianness)), MaskHex(|bw[0]|), "0");
    assert rec[1] == Record(Hexlify(InBusOrder(bw[1], endianness)), MaskHex(|bw[1]|), "1");
    assert rec == [rec[0], rec[1]];
  }

  lemma ReversedHexExample()
    ensures Hexlify(Reverse([0x11, 0x22, 0x33, 0x44])) == "44332211"
    ensures Hexlify(Reverse([0x55, 0x66])) == "6655"
  {
    var w0: seq<byte> := [0x11, 0x22, 0x33, 0x44];
    var w1: seq<byte> := [0x55, 0x66];
    assert Reverse(w0) == [0x44, 0x33, 0x22, 0x11];
    assert Reverse(w1) == [0x66, 0x55];
    HexlifyExample();
  }

  lemma RecordLiterals()
    ensures Record("44332211", "f", "0") == "44332211,f,0"
    ensures Record("6655", "3", "1") == "6655,3,1"
  {
  }

  lemma HexlifyExample()
    ensures Hexlify([0x44, 0x33, 0x22, 0x11]) == "44332211"
    ensures Hexlify([0x66, 0x55]) == "6655"
  {
    HexlifyFullWord();
    HexlifyHalfWord();
  }

  lemma HexlifyFullWord()
    ensures Hexlify([0x44, 0x33, 0x22, 0x11]) == "44332211"
  {
    HexPairOf(4, 4);
    HexPairOf(3, 3);
    HexPairOf(2, 2);
    HexPairOf(1, 1);
    assert Hexlify([0x11]) == "11";
    assert Hexlify([0x22, 0x11]) == "2211";
    assert Hexlify([0x33, 0x22, 0x11]) == "332211";
  }

  lemma HexlifyHalfWord()
    ensures Hexlify([0x66, 0x55]) == "6655"
  {
    HexPairOf(6, 6);
    HexPairOf(5, 5);
    assert Hexlify([0x55]) == "55";
  }

  lemma HexPairOf(hi: nat, lo: nat)
    requires hi < 10 && lo < 10
    ensures HexPair((16 * hi + lo) as byte) == [('0' as int + hi) as char, ('0' as int + lo) as char]
  {
  }
}
