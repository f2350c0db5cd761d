/**
 * onegin's line splitting: `cntlines` counts the lines of the buffer read
 * from the file, scanned as a NUL-terminated string, and `splitbuf` cuts
 * that text into C strings in place, overwriting every newline with NUL and
 * recording where each line starts. A `char *` into the buffer is modelled
 * as its offset from the start of the buffer, so `lineptr` is an array of
 * offsets.
 */
module LineSplit {
  import opened StrOrder

  /**
   * `strlen(s)`: the index of the first NUL, which is the length of the C
   * string that starts at offset 0.
   */
  function StrLen(s: seq<Byte>): (n: nat)
    requires NUL in s
    ensures n < |s| && s[n] == NUL
    ensures forall k :: 0 <= k < n ==> s[k] != NUL
  {
    if s[0] == NUL then 0
    else
      assert s == [s[0]] + s[1..];
      StrLen(s[1..]) + 1
  }

  /** The first NUL is the only NUL with no NUL before it. */
  lemma StrLenAt(s: seq<Byte>, n: nat)
    requires n < |s| && s[n] == NUL
    requires forall k :: 0 <= k < n ==> s[k] != NUL
    ensures StrLen(s) == n
  {
  }

  /** The text of a NUL-terminated buffer: the bytes before its first NUL. */
  function Text(s: seq<Byte>): seq<Byte>
    requires NUL in s
  {
    s[..StrLen(s)]
  }

  /** The C string at offset `off` of a buffer: its bytes up to the next NUL. */
  function CStr(b: seq<Byte>, off: nat): seq<Byte>
    requires off <= |b| && NUL in b[off..]
  {
    b[off..off + StrLen(b[off..])]
  }

  /** The offsets of the newlines of `t`, from first to last; each entry is the offset of a newline. */
  function NlPositions(t: seq<Byte>): (ps: seq<nat>)
    ensures forall m :: 0 <= m < |ps| ==> ps[m] < |t| && t[ps[m]] == NL
    decreases |t|
  {
    if t == [] then []
    else
      var ps := NlPositions(t[..|t| - 1]);
      if t[|t| - 1] == NL then ps + [|t| - 1] else ps
  }

  /** There is one entry per newline of `t`: as many as `cntlines` counts. */
  lemma {:induction false} NlPositionsCount(t: seq<Byte>)
    ensures |NlPositions(t)| == multiset(t)[NL]
    decreases |t|
  {
    if t != [] {
      var front := t[..|t| - 1];
      NlPositionsCount(front);
      assert t == front + [t[|t| - 1]];
    }
  }

  /** Reading one more byte adds its offset to the newline list when it is a newline. */
  lemma NlPositionsSnoc(s: seq<Byte>, i: nat)
    requires i < |s|
    ensures NlPositions(s[..i + 1]) == if s[i] == NL then NlPositions(s[..i]) + [i] else NlPositions(s[..i])
  {
    assert s[..i + 1][..i] == s[..i];
  }

  /** The newline offsets are listed in strictly increasing order. */
  lemma {:induction false} NlPositionsIncreasing(t: seq<Byte>, m: nat, m': nat)
    requires m < m' < |NlPositions(t)|
    ensures NlPositions(t)[m] < NlPositions(t)[m']
    decreases |t|
  {
    var front := t[..|t| - 1];
    var ps := NlPositions(front);
    if m' < |ps| {
      NlPositionsIncreasing(front, m, m');
    }
  }

  /** Every newline of `t` is listed: the newline at offset `k` is entry `q`. */
  lemma {:induction false} NlPositionsComplete(t: seq<Byte>, k: nat) returns (q: nat)
    requires k < |t| && t[k] == NL
    ensures q < |NlPositions(t)| && NlPositions(t)[q] == k
    decreases |t|
  {
    var front := t[..|t| - 1];
    if k < |t| - 1 {
      q := NlPositionsComplete(front, k);
    } else {
      q := |NlPositions(front)|;
    }
  }

  /**
   * Where line `k` of `t` starts: offset 0 for the first line, otherwise
   * just past the newline that ends line `k - 1`.
   */
  function LineStart(t: seq<Byte>, k: nat): nat
    requires k <= |NlPositions(t)|
  {
    if k == 0 then 0 else NlPositions(t)[k - 1] + 1
  }

  /** Line `k` of `t`: the bytes from its start up to, not including, its newline. */
  function Segment(t: seq<Byte>, k: nat): seq<Byte>
    requires k < |NlPositions(t)|
  {
    var ps := NlPositions(t);
    assert LineStart(t, k) <= ps[k] by {
      if k > 0 {
        NlPositionsIncreasing(t, k - 1, k);
      }
    }
    t[LineStart(t, k)..ps[k]]
  }

  /** The buffer once every newline of its text has been overwritten with NUL. */
  ghost function Blank(s: seq<Byte>): seq<Byte>
    requires NUL in s
  {
    seq(|s|, k requires 0 <= k < |s| => if k < StrLen(s) && s[k] == NL then NUL else s[k])
  }

  /** A prefix holds no more copies of a byte than the whole sequence. */
  lemma PrefixCount(t: seq<Byte>, i: nat, x: Byte)
    requires i <= |t|
    ensures multiset(t[..i])[x] <= multiset(t)[x]
  {
    assert t == t[..i] + t[i..];
  }

  /**
   * `cntlines(buf)`: the number of newline bytes before the first NUL of
   * the buffer.
   */
  method CntLines(buf: array<Byte>) returns (cnt: int)
    requires NUL in buf[..]
    ensures cnt == multiset(Text(buf[..]))[NL]
  {
    ghost var n := StrLen(buf[..]);
    cnt := 0;
    var i := 0;
    while buf[i] != NUL
      invariant 0 <= i <= n
      invariant cnt == multiset(buf[..i])[NL]
      decreases n - i
    {
      assert buf[..i + 1] == buf[..i] + [buf[i]];
      if buf[i] == NL {
        cnt := cnt + 1;
      }
      i := i + 1;
    }
    assert buf[..][..n] == buf[..i];
  }

  /**
   * The state of `splitbuf`'s scan of the original buffer `s` after `i`
   * bytes: the newlines among them are NUL in `b`, every other byte is as in
   * `s`, `lp` holds the starts of the `j` lines closed so far and `lp0`'s
   * cells after them, and `beg` is where the open line starts.
   */
  ghost predicate SplitState(s: seq<Byte>, lp0: seq<nat>, i: int,
                            b: seq<Byte>, lp: seq<nat>, j: int, beg: int)
  {
    && NUL in s && 0 <= i <= StrLen(s) && |b| == |s| && |lp| == |lp0| && 0 <= j <= |lp|
    && (forall k :: 0 <= k < |b| ==> b[k] == if k < i && s[k] == NL then NUL else s[k])
    && j == |NlPositions(s[..i])| && beg == LineStart(s[..i], j)
    && (forall k :: 0 <= k < j ==> lp[k] == LineStart(s[..i], k))
    && (forall k :: j <= k < |lp| ==> lp[k] == lp0[k])
  }

  /** A newline of the text has fewer newlines than the whole text before it. */
  lemma RoomForLine(s: seq<Byte>, i: nat)
    requires NUL in s && i < StrLen(s) && s[i] == NL
    ensures |NlPositions(s[..i])| < multiset(Text(s))[NL]
  {
    var n := StrLen(s);
    NlPositionsSnoc(s, i);
    NlPositionsCount(s[..i]);
    NlPositionsCount(s[..i + 1]);
    assert s[..n][..i + 1] == s[..i + 1];
    PrefixCount(s[..n], i + 1, NL);
  }

  /** A newline found in the text always has a free cell of `lineptr` for its line. */
  lemma SplitRoom(s: seq<Byte>, lp0: seq<nat>, i: int, b: seq<Byte>, lp: seq<nat>, j: int, beg: int)
    requires SplitState(s, lp0, i, b, lp, j, beg) && b[i] != NUL
    requires multiset(Text(s))[NL] <= |lp|
    ensures i < StrLen(s) && b[i] == s[i]
    ensures s[i] == NL ==> j < |lp|
  {
    assert b[i] == s[i];
    if s[i] == NL {
      RoomForLine(s, i);
    }
  }

  /** A line start already known stays where it is when one more byte is read. */
  lemma LineStartSnoc(s: seq<Byte>, i: nat, k: nat)
    requires i < |s| && k <= |NlPositions(s[..i])|
    ensures k <= |NlPositions(s[..i + 1])|
    ensures LineStart(s[..i + 1], k) == LineStart(s[..i], k)
  {
    NlPositionsSnoc(s, i);
  }

  /** One byte of the scan: a newline becomes NUL and closes a line, any other byte is passed over. */
  lemma SplitStep(s: seq<Byte>, lp0: seq<nat>, i: int, b: seq<Byte>, lp: seq<nat>, j: int, beg: int,
                  b': seq<Byte>, lp': seq<nat>, j': int, beg': int)
    requires SplitState(s, lp0, i, b, lp, j, beg) && i < StrLen(s)
    requires s[i] == NL ==> j < |lp|
    requires b' == if s[i] == NL then b[i := NUL] else b
    requires lp' == if s[i] == NL then lp[j := beg] else lp
    requires j' == if s[i] == NL then j + 1 else j
    requires beg' == if s[i] == NL then i + 1 else beg
    ensures SplitState(s, lp0, i + 1, b', lp', j', beg')
  {
    NlPositionsSnoc(s, i);
    LineStartSnoc(s, i, j);
    forall k | 0 <= k < j'
      ensures lp'[k] == LineStart(s[..i + 1], k)
    {
      LineStartSnoc(s, i, k);
    }
  }

  /** A scan that has reached the NUL has blanked the whole text and recorded all of its lines. */
  lemma SplitDone(s: seq<Byte>, lp0: seq<nat>, i: int, b: seq<Byte>, lp: seq<nat>, j: int, beg: int)
    requires SplitState(s, lp0, i, b, lp, j, beg) && b[i] == NUL
    ensures b == Blank(s)
    ensures j == |NlPositions(Text(s))|
    ensures j <= |lp| && forall k :: 0 <= k < j ==> lp[k] == LineStart(Text(s), k)
  {
    assert i == StrLen(s);
  }

  /**
   * `splitbuf(buf, lineptr)`: every newline of the text becomes NUL, every
   * other byte stays, and `lineptr[k]` receives the start of line `k` for
   * each of the text's newline-terminated lines. Entries past the number
   * of newlines are not written.
   */
  method SplitBuf(buf: array<Byte>, lineptr: array<nat>)
    requires NUL in buf[..]
    requires multiset(Text(buf[..]))[NL] <= lineptr.Length
    modifies buf, lineptr
    ensures |NlPositions(Text(old(buf[..])))| == multiset(Text(old(buf[..])))[NL] <= lineptr.Length
    ensures buf[..] == Blank(old(buf[..]))
    ensures forall k :: 0 <= k < |NlPositions(Text(old(buf[..])))| ==>
      lineptr[k] == LineStart(Text(old(buf[..])), k)
    ensures forall k :: |NlPositions(Text(old(buf[..])))| <= k < lineptr.Length ==>
      lineptr[k] == old(lineptr[k])
  {
    ghost var s := buf[..];
    ghost var lp0 := lineptr[..];
    NlPositionsCount(Text(s));
    var j := 0;
    var beg := 0;
    var i := 0;
    while buf[i] != NUL
      invariant 0 <= i < buf.Length
      invariant SplitState(s, lp0, i, buf[..], lineptr[..], j, beg)
      decreases StrLen(s) - i
    {
      ghost var b, lp, j0, beg0 := buf[..], lineptr[..], j, beg;
      SplitRoom(s, lp0, i, b, lp, j, beg);
      var c := buf[i];
      if c == NL {
        buf[i] := NUL;
        lineptr[j] := beg;
        j := j + 1;
        beg := i + 1;
      }
      SplitStep(s, lp0, i, b, lp, j0, beg0, buf[..], lineptr[..], j, beg);
      i := i + 1;
    }
    SplitDone(s, lp0, i, buf[..], lineptr[..], j, beg);
  }

  /**
   * `splitbuf` changes a byte of the buffer exactly when it is one of the
   * text's newlines; every other byte, the terminating NUL and whatever
   * follows it included, keeps its value.
   */
  lemma BlankChangesOnlyNewlines(s: seq<Byte>, k: nat)
    requires NUL in s && k < |s|
    ensures |Blank(s)| == |s|
    ensures Blank(s)[k] != s[k] <==> k in NlPositions(Text(s))
    ensures k in NlPositions(Text(s)) ==> Blank(s)[k] == NUL
  {
    var t := Text(s);
    if k < |t| && t[k] == NL {
      var q := NlPositionsComplete(t, k);
    }
  }

  /** No byte of line `k` is a newline: the next newline after its start is the one that ends it. */
  lemma SegmentNoNewline(t: seq<Byte>, k: nat, m: nat)
    requires k < |NlPositions(t)| && LineStart(t, k) <= m < NlPositions(t)[k]
    ensures t[m] != NL
  {
    var ps := NlPositions(t);
    if t[m] == NL {
      var q := NlPositionsComplete(t, m);
      if q < k {
        assert LineStart(t, k) == ps[k - 1] + 1;
        if q < k - 1 {
          NlPositionsIncreasing(t, q, k - 1);
        }
        assert false;
      } else if q > k {
        NlPositionsIncreasing(t, k, q);
        assert false;
      }
    }
  }

  /** Line `k` ends at its newline, and no line ends past the last newline. */
  lemma SegmentEnd(t: seq<Byte>, k: nat)
    requires k < |NlPositions(t)|
    ensures var ps := NlPositions(t);
      LineStart(t, k) + |Segment(t, k)| == ps[k] <= ps[|ps| - 1]
  {
    var ps := NlPositions(t);
    if k < |ps| - 1 {
      NlPositionsIncreasing(t, k, |ps| - 1);
    }
  }

  /**
   * After `splitbuf`, the C string at the start of line `k` is exactly line
   * `k` of the text: it holds no newline and no NUL, and it ends at the
   * newline that closed it. Every such line ends at or before the last
   * newline, so bytes after the last newline belong to no recorded line.
   */
  lemma SplitLinesRead(s: seq<Byte>, k: nat)
    requires NUL in s && k < |NlPositions(Text(s))|
    ensures var t := Text(s);
      && LineStart(t, k) <= |s| && NUL in Blank(s)[LineStart(t, k)..]
      && CStr(Blank(s), LineStart(t, k)) == Segment(t, k)
    ensures NL !in Segment(Text(s), k) && NUL !in Segment(Text(s), k)
    ensures var ps := NlPositions(Text(s));
      LineStart(Text(s), k) + |Segment(Text(s), k)| == ps[k] <= ps[|ps| - 1]
  {
    var t := Text(s);
    var ps := NlPositions(t);
    var b := Blank(s);
    var off := LineStart(t, k);
    SegmentEnd(t, k);
    var seg := Segment(t, k);
    assert seg == t[off..ps[k]];
    var r := b[off..];
    forall m | 0 <= m < |seg|
      ensures seg[m] != NL && seg[m] != NUL && r[m] == seg[m]
    {
      SegmentNoNewline(t, k, off + m);
    }
    assert r[|seg|] == NUL;
    StrLenAt(r, |seg|);
    assert CStr(b, off) == seg;
  }

  /** The first `k` lines of `t`, each followed by the newline that ended it. */
  function Joined(t: seq<Byte>, k: nat): seq<Byte>
    requires k <= |NlPositions(t)|
  {
    if k == 0 then [] else Joined(t, k - 1) + Segment(t, k - 1) + [NL]
  }

  /**
   * The recorded lines, put back together with their newlines, are the
   * text up to where line `k` starts: splitting loses no byte before the
   * last newline and invents none.
   */
  lemma {:induction false} JoinedLines(t: seq<Byte>, k: nat)
    requires k <= |NlPositions(t)|
    ensures LineStart(t, k) <= |t| && Joined(t, k) == t[..LineStart(t, k)]
  {
    var ps := NlPositions(t);
    if k > 0 {
      JoinedLines(t, k - 1);
      var off := LineStart(t, k - 1);
      assert off <= ps[k - 1] by {
        if k > 1 {
          NlPositionsIncreasing(t, k - 2, k - 1);
        }
      }
      assert t[..ps[k - 1] + 1] == t[..off] + t[off..ps[k - 1]] + [t[ps[k - 1]]];
    }
  }
}
