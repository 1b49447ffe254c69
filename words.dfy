/**
 * Cutting a sequence into bus words and putting it back together:
 * the list comprehension `[s[i:i+n] for i in range(0, len(s), n)]`,
 * `"".join(...)` and `reversed(...)`.
 */
module Words {

  /** `"".join(ws)` (and its analogue on any sequence of sequences). */
  function Flatten<T>(ws: seq<seq<T>>): seq<T> {
    if ws == [] then [] else ws[0] + Flatten(ws[1..])
  }

  lemma {:induction false} FlattenAppend<T>(a: seq<seq<T>>, b: seq<seq<T>>)
    ensures Flatten(a + b) == Flatten(a) + Flatten(b)
    decreases |a|
  {
    if a == [] {
      assert a + b == b;
    } else {
      assert (a + b)[1..] == a[1..] + b;
      FlattenAppend(a[1..], b);
    }
  }

  /** Flattening words that all have length `n`. */
  lemma {:induction false} FlattenUniformLength<T>(ws: seq<seq<T>>, n: nat)
    requires forall i :: 0 <= i < |ws| ==> |ws[i]| == n
    ensures |Flatten(ws)| == n * |ws|
    decreases |ws|
  {
    if ws != [] {
      FlattenUniformLength(ws[1..], n);
    }
  }

  /**
   * `[s[i:i+n] for i in range(0, len(s), n)]`: consecutive slices of `n`
   * elements, the last one shorter when `n` does not divide `|s|`, and no
   * slice at all for an empty `s`.
   */
  function Chunks<T>(s: seq<T>, n: nat): (r: seq<seq<T>>)
    requires n > 0
    ensures r == [] <==> s == []
    decreases |s|
  {
    if s == [] then []
    else if |s| <= n then [s]
    else [s[..n]] + Chunks(s[n..], n)
  }

  /**
   * Joining the slices gives `s` back; every slice holds 1 to `n`
   * elements and all but the last hold exactly `n`.
   */
  lemma {:induction false} ChunksShape<T>(s: seq<T>, n: nat)
    requires n > 0
    ensures var r := Chunks(s, n);
            Flatten(r) == s &&
            (forall i :: 0 <= i < |r| ==> 0 < |r[i]| <= n) &&
            (forall i :: 0 <= i < |r| - 1 ==> |r[i]| == n)
    decreases |s|
  {
    if s == [] {
    } else if |s| <= n {
      assert Flatten([s]) == s + Flatten([s][1..]);
    } else {
      var rest := Chunks(s[n..], n);
      ChunksShape(s[n..], n);
      assert Chunks(s, n) == [s[..n]] + rest;
      assert ([s[..n]] + rest)[1..] == rest;
    }
  }

  /**
   * There is one slice per start index `0, n, 2n, ...` below `|s|`:
   * for `c` slices of a non-empty `s`, `(c - 1) * n < |s| <= c * n`.
   */
  lemma {:induction false} ChunkCount<T>(s: seq<T>, n: nat)
    requires n > 0
    ensures s != [] ==> (|Chunks(s, n)| - 1) * n < |s| <= |Chunks(s, n)| * n
    decreases |s|
  {
    if |s| > n {
      var c := |Chunks(s[n..], n)|;
      ChunkCount(s[n..], n);
      assert |Chunks(s, n)| == c + 1;
      assert (c + 1) * n == c * n + n;
    }
  }

  lemma SliceOfDrop<T>(s: seq<T>, n: nat, j: nat, e: nat)
    requires n <= |s| && j <= e <= |s| - n
    ensures s[n..][j..e] == s[n + j..n + e]
  {
    forall i | 0 <= i < e - j ensures s[n..][j..e][i] == s[n + j..n + e][i] {
      assert s[n..][j + i] == s[n + j + i];
    }
  }

  /** The slice that ends at `|s|` or `n` elements after `start`, whichever comes first. */
  function SliceEnd(start: nat, n: nat, len: nat): nat {
    if start + n <= len then start + n else len
  }

  /** One step of the comprehension: the first slice, then the slices of the rest. */
  lemma ChunksUnfold<T>(s: seq<T>, n: nat)
    requires n > 0 && |s| > n
    ensures Chunks(s, n) == [s[..n]] + Chunks(s[n..], n)
  {
  }

  lemma MulStep(k: nat, n: nat)
    requires k > 0
    ensures 0 <= (k - 1) * n && k * n == (k - 1) * n + n
  {
  }

  /** Slice `k`, which starts at `start == k * n`, runs to `start + n` clipped to `|s|`. */
  lemma {:induction false} ChunkFrom<T>(s: seq<T>, n: nat, k: nat, start: nat)
    requires n > 0 && k < |Chunks(s, n)| && start == k * n
    ensures start < |s|
    ensures Chunks(s, n)[k] == s[start..SliceEnd(start, n, |s|)]
    decreases k
  {
    if k == 0 {
      if |s| > n {
        ChunksUnfold(s, n);
      } else {
        assert Chunks(s, n) == [s];
      }
    } else {
      MulStep(k, n);
      ChunksUnfold(s, n);
      var t := s[n..];
      ChunkFrom(t, n, k - 1, start - n);
      var e := SliceEnd(start - n, n, |t|);
      SliceOfDrop(s, n, start - n, e);
      assert SliceEnd(start, n, |s|) == n + e;
      calc {
        Chunks(s, n)[k];
        ([s[..n]] + Chunks(t, n))[k];
        Chunks(t, n)[k - 1];
        t[start - n..e];
        s[start..n + e];
      }
    }
  }

  /** Slice `k` is the comprehension's `s[k*n : k*n + n]`, clipped to `|s|`. */
  lemma ChunkAt<T>(s: seq<T>, n: nat, k: nat)
    requires n > 0 && k < |Chunks(s, n)|
    ensures k * n < |s|
    ensures Chunks(s, n)[k] == s[k * n..SliceEnd(k * n, n, |s|)]
  {
    assert 0 <= k * n;
    ChunkFrom(s, n, k, k * n);
  }

  /** When `n` divides `|s|` every slice is full. */
  lemma {:induction false} ChunksFull<T>(s: seq<T>, n: nat, c: nat)
    requires n > 0 && |s| == c * n
    ensures forall i :: 0 <= i < |Chunks(s, n)| ==> |Chunks(s, n)[i]| == n
    decreases c
  {
    if |s| > n {
      assert |s[n..]| == (c - 1) * n;
      ChunksFull(s[n..], n, c - 1);
      assert Chunks(s, n)[1..] == Chunks(s[n..], n);
    } else if s != [] {
    }
  }

  /** When `n` and `|s|` are both even every slice has even length. */
  lemma {:induction false} ChunksEven<T>(s: seq<T>, n: nat)
    requires n > 0 && n % 2 == 0 && |s| % 2 == 0
    ensures forall i :: 0 <= i < |Chunks(s, n)| ==> |Chunks(s, n)[i]| % 2 == 0
    decreases |s|
  {
    if |s| > n {
      ChunksEven(s[n..], n);
      assert Chunks(s, n)[1..] == Chunks(s[n..], n);
    }
  }

  /** Slicing a join of full words gives the words back. */
  lemma {:induction false} ChunksOfFlatten<T>(ws: seq<seq<T>>, n: nat)
    requires n > 0
    requires forall i :: 0 <= i < |ws| ==> |ws[i]| == n
    ensures Chunks(Flatten(ws), n) == ws
    decreases |ws|
  {
    if ws != [] {
      var f := Flatten(ws);
      FlattenUniformLength(ws[1..], n);
      assert f == ws[0] + Flatten(ws[1..]);
      if |ws| == 1 {
        assert ws[1..] == [];
        assert f == ws[0];
      } else {
        assert |f| > n;
        assert f[..n] == ws[0] && f[n..] == Flatten(ws[1..]);
        ChunksOfFlatten(ws[1..], n);
      }
    }
  }

  /** `list(reversed(s))`. */
  function Reverse<T>(s: seq<T>): (r: seq<T>)
    ensures |r| == |s|
    ensures forall i :: 0 <= i < |s| ==> r[i] == s[|s| - 1 - i]
  {
    if s == [] then [] else Reverse(s[1..]) + [s[0]]
  }

  lemma ReverseReverse<T>(s: seq<T>)
    ensures Reverse(Reverse(s)) == s
  {
  }

  lemma {:induction false} FlattenReverseLength<T>(ws: seq<seq<T>>)
    ensures |Flatten(Reverse(ws))| == |Flatten(ws)|
    decreases |ws|
  {
    if ws != [] {
      assert Reverse(ws) == Reverse(ws[1..]) + [ws[0]];
      FlattenAppend(Reverse(ws[1..]), [ws[0]]);
      assert Flatten([ws[0]]) == ws[0] + Flatten([ws[0]][1..]);
      FlattenReverseLength(ws[1..]);
    }
  }

  /**
   * `"".join(reversed([w[i:i+2] for i in range(0, len(w), 2)]))`: the
   * two-character groups of `w` in reverse order, each group kept as it is.
   */
  function ReverseGroups(w: string): string {
    Flatten(Reverse(Chunks(w, 2)))
  }

  /** Reversing the groups keeps the word's length. */
  lemma ReverseGroupsLength(w: string)
    ensures |ReverseGroups(w)| == |w|
  {
    ChunksShape(w, 2);
    FlattenReverseLength(Chunks(w, 2));
  }

  /** On an even-length word, reversing the groups twice restores the word. */
  lemma ReverseGroupsInvolutive(w: string)
    requires |w| % 2 == 0
    ensures ReverseGroups(ReverseGroups(w)) == w
  {
    var cs := Chunks(w, 2);
    ChunksShape(w, 2);
    ChunksFull(w, 2, |w| / 2);
    var rs := Reverse(cs);
    ChunksOfFlatten(rs, 2);
    ReverseReverse(cs);
  }

  /**
   * An odd-length word is not restored: the unpaired last character moves
   * to the front and stays paired with the wrong neighbour.
   */
  lemma ReverseGroupsOddWord()
    ensures ReverseGroups("abc") == "cab"
    ensures ReverseGroups(ReverseGroups("abc")) == "bca"
  {
    assert "abc"[..2] == "ab" && "abc"[2..] == "c";
    assert Chunks("abc", 2) == ["ab", "c"];
    assert Reverse(["ab", "c"]) == ["c", "ab"];
    assert Flatten(["c", "ab"]) == "cab";
    assert "cab"[..2] == "ca" && "cab"[2..] == "b";
    assert Chunks("cab", 2) == ["ca", "b"];
    assert Reverse(["ca", "b"]) == ["b", "ca"];
    assert Flatten(["b", "ca"]) == "bca";
  }
}
