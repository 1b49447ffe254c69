/**
 * Two places where tool/net2axis.py, as written, does something other
 * than what it evidently means to do. Each is modelled here exactly as
 * written, with the input that shows the difference; the rest of the
 * model uses the intended behaviour (`Hex.MaskHex`, `Encoder.OutputFileName`).
 */
module AsWritten {
  import opened Hex
  import opened Encoder

  /** `sys.maxint` of CPython 2 on a 64-bit Unix build: above it, integers are longs. */
  const PY2_MAXINT: nat := 0x7fff_ffff_ffff_ffff

  /**
   * The keep field as Python 2 computes it for a word of `count` bytes:
   * `2**count` is a long once it exceeds `maxint`, `- 1` keeps it a long,
   * and `hex` of a long ends in `L`, which `split("x", 1)[1]` keeps.
   */
  function KeepAsWritten(count: nat, maxint: nat): (keep: string)
    ensures |keep| == |MaskHex(count)| + (if Pow2(count) > maxint then 1 else 0)
    ensures keep[..|MaskHex(count)|] == MaskHex(count)
    ensures Pow2(count) > maxint ==> keep[|keep| - 1] == 'L'
  {
    ToHex(Pow2(count) - 1) + (if Pow2(count) > maxint then "L" else "")
  }

  lemma {:induction false} Pow2Monotone(a: nat, b: nat)
    requires a <= b
    ensures Pow2(a) <= Pow2(b)
    decreases b - a
  {
    if a < b {
      Pow2Monotone(a, b - 1);
    }
  }

  lemma Pow2Of62And63()
    ensures Pow2(62) == 0x4000_0000_0000_0000
    ensures Pow2(63) == 0x8000_0000_0000_0000
  {
    assert Pow2(8) == 0x100;
    assert Pow2(16) == 0x1_0000 by { Pow2Step8(8); }
    assert Pow2(24) == 0x100_0000 by { Pow2Step8(16); }
    assert Pow2(32) == 0x1_0000_0000 by { Pow2Step8(24); }
    assert Pow2(40) == 0x100_0000_0000 by { Pow2Step8(32); }
    assert Pow2(48) == 0x1_0000_0000_0000 by { Pow2Step8(40); }
    assert Pow2(56) == 0x100_0000_0000_0000 by { Pow2Step8(48); }
    assert Pow2(62) == 0x4000_0000_0000_0000 by {
      assert Pow2(62) == 64 * Pow2(56);
    }
  }

  lemma Pow2Step8(k: nat)
    ensures Pow2(k + 8) == 256 * Pow2(k)
  {
    assert Pow2(k + 8) == 2 * Pow2(k + 7) == 4 * Pow2(k + 6) == 8 * Pow2(k + 5) == 16 * Pow2(k + 4);
    assert Pow2(k + 4) == 2 * Pow2(k + 3) == 4 * Pow2(k + 2) == 8 * Pow2(k + 1) == 16 * Pow2(k);
  }

  /**
   * On 64-bit CPython 2 the keep field is the intended mask exactly for
   * words of at most 62 bytes; from 63 bytes on it carries a stray `L`.
   */
  lemma KeepAsWrittenMatches(count: nat)
    ensures KeepAsWritten(count, PY2_MAXINT) == MaskHex(count) <==> count <= 62
  {
    Pow2Of62And63();
    if count <= 62 {
      Pow2Monotone(count, 62);
    } else {
      Pow2Monotone(63, count);
    }
  }

  /** A full word of a 512-bit bus (64 bytes): `ffffffffffffffffL` instead of sixteen `f`s. */
  lemma KeepOn512BitBus()
    ensures MaskHex(64) == Repeat('f', 16)
    ensures KeepAsWritten(64, PY2_MAXINT) == Repeat('f', 16) + "L"
  {
    MaskShape(64);
    KeepAsWrittenMatches(64);
    Pow2Of62And63();
    Pow2Monotone(63, 64);
  }

  /** `s.split(".")[0]`: everything before the first `.`, or all of `s`. */
  function BeforeFirstDot(s: string): (r: string)
    ensures r <= s && '.' !in r && (r == s || s[|r|] == '.')
  {
    if s == [] || s[0] == '.' then [] else [s[0]] + BeforeFirstDot(s[1..])
  }

  /**
   * The output file name as line 36 builds it: the input path up to its
   * first `.`, then `.` and the extension, wherever that first `.` is.
   */
  function OutputFileNameAsWritten(path: string, extension: string): (name: string)
    ensures exists p :: p <= path && '.' !in p && (p == path || path[|p|] == '.') &&
                        name == p + "." + extension
  {
    var p := BeforeFirstDot(path);
    assert p <= path && '.' !in p && (p == path || path[|p|] == '.');
    p + "." + extension
  }

  /**
   * A path that starts with `./` loses its whole name: `./cap.pcap`
   * gives `.dat`, where the intended name is `./cap.dat`.
   */
  lemma DotDirectoryLost(path: string)
    requires path == "./cap.pcap"
    ensures OutputFileNameAsWritten(path, "dat") == ".dat"
    ensures OutputFileName(path, "dat") == "./cap.dat"
  {
    assert BeforeFirstDot(path) == [];
    assert LastIndexOf(path, '/') == 1 by {
      assert path[1] == '/';
      forall j | 1 < j < |path| ensures path[j] != '/' { }
    }
    assert LastIndexOf(path, '.') == 5 by {
      assert path[5] == '.';
      forall j | 5 < j < |path| ensures path[j] != '.' { }
    }
    assert path[2] != '.';
    assert Stem(path) == path[..5] == "./cap";
  }

  /**
   * A file name with more than one `.` loses all but its first part:
   * `a.b.pcap` gives `a.dat`, where the intended name is `a.b.dat`.
   */
  lemma InnerDotLost(path: string)
    requires path == "a.b.pcap"
    ensures OutputFileNameAsWritten(path, "dat") == "a.dat"
    ensures OutputFileName(path, "dat") == "a.b.dat"
  {
    assert BeforeFirstDot(path) == "a" by {
      assert path[0] == 'a' && path[1] == '.';
      assert BeforeFirstDot(path) == [path[0]] + BeforeFirstDot(path[1..]);
    }
    assert LastIndexOf(path, '/') == -1 by {
      forall j | 0 <= j < |path| ensures path[j] != '/' { }
    }
    assert LastIndexOf(path, '.') == 3 by {
      assert path[3] == '.';
      forall j | 3 < j < |path| ensures path[j] != '.' { }
    }
    assert path[0] != '.';
    assert Stem(path) == path[..3] == "a.b";
  }
}
