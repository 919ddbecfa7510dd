/** The helpers of `util/util.ts`: the range binary search shared by the GB18030 code paths,
    the code-unit serialisation of strings, and the UTF-16 byte-order sniffer. */
module Util {
  import opened Base

  // ---------------------------------------------------------------------------
  // findIdx

  ghost predicate Ascending(table: seq<int>) {
    forall i, j :: 0 <= i < j < |table| ==> table[i] <= table[j]
  }

  ghost predicate StrictlyAscending(table: seq<int>) {
    forall i, j :: 0 <= i < j < |table| ==> table[i] < table[j]
  }

  /** The `while (l < r-1)` loop of `findIdx`. Its comment states the invariant
      `table[l] <= val < table[r]`, with `r == |table|` standing for +infinity; `mid` lies
      strictly between `l` and `r`, so the window shrinks and the loop ends with `r == l + 1`. */
  function Narrow(table: seq<int>, val: int, l: nat, r: nat): (k: nat)
    requires l < r <= |table|
    requires table[l] <= val
    requires r == |table| || val < table[r]
    ensures l <= k < r
    ensures table[k] <= val
    ensures k + 1 == |table| || val < table[k + 1]
    decreases r - l
  {
    if l < r - 1 then
      var mid := l + (r - l + 1) / 2;
      assert l < mid < r;
      if table[mid] <= val then Narrow(table, val, mid, r) else Narrow(table, val, l, mid)
    else
      l
  }

  /** `findIdx(table, val)`: -1 when `val` lies below the first entry, otherwise an index `k`
      with `table[k] <= val < table[k+1]`; on an ascending table that is the greatest index whose
      entry is at most `val`. An empty table gives 0, as the JavaScript loop never runs. */
  function FindIdx(table: seq<int>, val: int): (k: int)
    ensures k == -1 <==> |table| > 0 && val < table[0]
    ensures |table| == 0 ==> k == 0
    ensures |table| > 0 && table[0] <= val ==>
              0 <= k < |table| && table[k] <= val && (k + 1 == |table| || val < table[k + 1])
  {
    if |table| > 0 && table[0] > val then -1
    else if |table| == 0 then 0
    else Narrow(table, val, 0, |table|)
  }

  /** On an ascending table the index splits it: every entry up to it is at most `val`, every
      entry after it is above. */
  lemma FindIdxSplits(table: seq<int>, val: int)
    requires |table| > 0 && table[0] <= val && Ascending(table)
    ensures var k := FindIdx(table, val);
            (forall j :: 0 <= j <= k ==> table[j] <= val) && (forall j :: k < j < |table| ==> val < table[j])
  {
    var k := FindIdx(table, val);
    forall j | 0 <= j <= k ensures table[j] <= val {
      assert j == k || table[j] <= table[k];
    }
    forall j | k < j < |table| ensures val < table[j] {
      assert j == k + 1 || table[k + 1] <= table[j];
    }
  }

  /** The `while` loop of `findIdx` itself, agreeing with the recursive reading above. */
  method FindIdxLoop(table: seq<int>, val: int) returns (k: int)
    ensures k == FindIdx(table, val)
  {
    if |table| > 0 && table[0] > val {
      return -1;
    }
    var l, r := 0, |table|;
    while l < r - 1
      invariant 0 <= l && (|table| == 0 ==> l == 0 && r == 0)
      invariant |table| > 0 ==> l < r <= |table| && table[l] <= val && (r == |table| || val < table[r])
      invariant |table| > 0 ==> Narrow(table, val, l, r) == Narrow(table, val, 0, |table|)
      decreases r - l
    {
      var mid := l + (r - l + 1) / 2;
      if table[mid] <= val {
        l := mid;
      } else {
        r := mid;
      }
    }
    return l;
  }

  /** An independent description of the same index: the number of entries that are at most
      `val`, minus one. */
  function CountAtMost(table: seq<int>, val: int): nat
    decreases |table|
  {
    if |table| == 0 then 0
    else CountAtMost(table[..|table| - 1], val) + (if table[|table| - 1] <= val then 1 else 0)
  }

  lemma {:induction false} CountOfSplitTable(table: seq<int>, val: int, m: nat)
    requires m <= |table|
    requires forall j :: 0 <= j < m ==> table[j] <= val
    requires forall j :: m <= j < |table| ==> val < table[j]
    ensures CountAtMost(table, val) == m
    decreases |table|
  {
    if |table| == 0 {
    } else if m == |table| {
      CountOfSplitTable(table[..|table| - 1], val, m - 1);
    } else {
      CountOfSplitTable(table[..|table| - 1], val, m);
    }
  }

  /** On a non-empty ascending table `findIdx` returns one less than the number of entries that
      are at most `val` (so -1 exactly when there are none). */
  lemma FindIdxCountsEntries(table: seq<int>, val: int)
    requires |table| > 0 && Ascending(table)
    ensures FindIdx(table, val) == CountAtMost(table, val) - 1
  {
    var k := FindIdx(table, val);
    if k == -1 {
      CountOfSplitTable(table, val, 0);
    } else {
      FindIdxSplits(table, val);
      CountOfSplitTable(table, val, k + 1);
    }
  }

  /** On a strictly ascending table at most one index brackets `val`, so any search that
      returns a bracketing index agrees with `findIdx`. */
  lemma BracketIsUnique(table: seq<int>, val: int, k: int)
    requires StrictlyAscending(table)
    requires 0 <= k < |table| && table[k] <= val
    requires k + 1 == |table| || val < table[k + 1]
    ensures FindIdx(table, val) == k
  {
    assert Ascending(table);
    assert table[0] <= table[k];
    FindIdxSplits(table, val);
  }

  // ---------------------------------------------------------------------------
  // strToBuf / bufToStr: a string as a buffer of 16-bit code units. The typed arrays use the
  // host byte order; the model fixes it to little-endian, as on every platform Node runs on.

  /** `strToBuf`: every code unit becomes two bytes, low half first (see `StrToBufBytes`). */
  function StrToBuf(s: seq<Unit>): (b: seq<Byte>)
    ensures |b| == 2 * |s|
    decreases |s|
  {
    if |s| == 0 then [] else [s[0] % 0x100, s[0] / 0x100] + StrToBuf(s[1..])
  }

  /** Code unit `i` fills bytes `2i` (low half) and `2i+1` (high half). */
  lemma {:induction false} StrToBufBytes(s: seq<Unit>)
    ensures var b := StrToBuf(s);
            forall i :: 0 <= i < |s| ==> b[2 * i] == s[i] % 0x100 && b[2 * i + 1] == s[i] / 0x100
    decreases |s|
  {
    if |s| > 0 {
      StrToBufBytes(s[1..]);
      var b := StrToBuf(s);
      var rest := StrToBuf(s[1..]);
      assert forall i :: 1 <= i < |s| ==> b[2 * i] == rest[2 * (i - 1)] && b[2 * i + 1] == rest[2 * (i - 1) + 1];
    }
  }

  /** `bufToStr`: every pair of bytes becomes one code unit, low byte first. `new Uint16Array`
      throws on a buffer of odd length, so callers pass an even number of bytes. */
  function BufToStr(b: seq<Byte>): (s: seq<Unit>)
    requires |b| % 2 == 0
    ensures |s| == |b| / 2
    decreases |b|
  {
    if |b| == 0 then [] else [b[0] + (b[1] as int) * 0x100] + BufToStr(b[2..])
  }

  /** Unit `i` of `bufToStr` is bytes `2i` (low) and `2i+1` (high). */
  lemma {:induction false} BufToStrUnits(b: seq<Byte>)
    requires |b| % 2 == 0
    ensures var s := BufToStr(b);
            forall i :: 0 <= i < |s| ==> s[i] == b[2 * i] + (b[2 * i + 1] as int) * 0x100
    decreases |b|
  {
    if |b| > 0 {
      BufToStrUnits(b[2..]);
      var s := BufToStr(b);
      var rest := BufToStr(b[2..]);
      assert forall i :: 1 <= i < |s| ==> s[i] == rest[i - 1] && b[2 * i] == b[2..][2 * (i - 1)];
    }
  }

  lemma {:induction false} BufToStrOfStrToBuf(s: seq<Unit>)
    ensures BufToStr(StrToBuf(s)) == s
    decreases |s|
  {
    if |s| > 0 {
      BufToStrOfStrToBuf(s[1..]);
      var b := StrToBuf(s);
      assert b[2..] == StrToBuf(s[1..]);
      assert s == [s[0]] + s[1..];
    }
  }

  lemma UnitHalves(lo: Byte, hi: Byte)
    ensures (lo + (hi as int) * 0x100) % 0x100 == lo
    ensures (lo + (hi as int) * 0x100) / 0x100 == hi
  {
  }

  lemma {:induction false} StrToBufOfBufToStr(b: seq<Byte>)
    requires |b| % 2 == 0
    ensures StrToBuf(BufToStr(b)) == b
    decreases |b|
  {
    if |b| > 0 {
      var s := BufToStr(b);
      StrToBufOfBufToStr(b[2..]);
      assert s[1..] == BufToStr(b[2..]);
      UnitHalves(b[0], b[1]);
      assert StrToBuf(s) == [s[0] % 0x100, s[0] / 0x100] + StrToBuf(s[1..]);
      assert b == [b[0], b[1]] + b[2..];
    }
  }

  lemma {:induction false} BufToStrAppend(x: seq<Byte>, y: seq<Byte>)
    requires |x| % 2 == 0 && |y| % 2 == 0
    ensures BufToStr(x + y) == BufToStr(x) + BufToStr(y)
    decreases |x|
  {
    if |x| > 0 {
      BufToStrAppend(x[2..], y);
      assert (x + y)[2..] == x[2..] + y;
    } else {
      assert x + y == y;
    }
  }

  // ---------------------------------------------------------------------------
  // detectEncoding

  /** `defaultEncoding || 'utf-16le'`: an absent or empty default means UTF-16LE. */
  function DefaultEncoding(defaultEncoding: string): (r: string)
    ensures |r| > 0
    ensures |defaultEncoding| > 0 ==> r == defaultEncoding
  {
    if |defaultEncoding| == 0 then "utf-16le" else defaultEncoding
  }

  /** Number of byte pairs `(buf[2k], buf[2k+1])` with `2k < n` shaped like `00 xx`, xx != 0:
      an ASCII character in big-endian order. */
  function CountBE(buf: seq<Byte>, n: nat): nat
    requires n % 2 == 0 && n <= |buf|
  {
    if n == 0 then 0
    else CountBE(buf, n - 2) + (if buf[n - 2] == 0 && buf[n - 1] != 0 then 1 else 0)
  }

  /** Number of byte pairs below `n` shaped like `xx 00`, xx != 0: ASCII in little-endian order. */
  function CountLE(buf: seq<Byte>, n: nat): nat
    requires n % 2 == 0 && n <= |buf|
  {
    if n == 0 then 0
    else CountLE(buf, n - 2) + (if buf[n - 2] != 0 && buf[n - 1] == 0 then 1 else 0)
  }

  /** A pair cannot look like ASCII in both orders, so the two counts share the pairs. */
  lemma {:induction false} CountsShareThePairs(buf: seq<Byte>, n: nat)
    requires n % 2 == 0 && n <= |buf|
    ensures CountBE(buf, n) + CountLE(buf, n) <= n / 2
  {
    if n > 0 {
      CountsShareThePairs(buf, n - 2);
    }
  }

  /** `detectEncoding`: a byte-order mark decides (FE FF is big-endian, FF FE little-endian, as
      in section 3.2 of RFC 2781); otherwise the first `min(even length, 64)` bytes vote, pairs
      `00 xx` for big-endian and `xx 00` for little-endian, and a tie keeps the default. */
  method DetectEncoding(buf: seq<Byte>, defaultEncoding: string) returns (enc: string)
    ensures |buf| < 2 ==> enc == DefaultEncoding(defaultEncoding)
    ensures |buf| >= 2 && buf[0] == 0xFE && buf[1] == 0xFF ==> enc == "utf-16be"
    ensures |buf| >= 2 && buf[0] == 0xFF && buf[1] == 0xFE ==> enc == "utf-16le"
    ensures |buf| >= 2 && !(buf[0] == 0xFE && buf[1] == 0xFF) && !(buf[0] == 0xFF && buf[1] == 0xFE) ==>
              var n := Min(|buf| - |buf| % 2, 64);
              enc == (if CountBE(buf, n) > CountLE(buf, n) then "utf-16be"
                      else if CountBE(buf, n) < CountLE(buf, n) then "utf-16le"
                      else DefaultEncoding(defaultEncoding))
  {
    enc := DefaultEncoding(defaultEncoding);
    if |buf| >= 2 {
      if buf[0] == 0xFE && buf[1] == 0xFF {
        enc := "utf-16be";
      } else if buf[0] == 0xFF && buf[1] == 0xFE {
        enc := "utf-16le";
      } else {
        var asciiCharsLE := 0;
        var asciiCharsBE := 0;
        var len := Min(|buf| - |buf| % 2, 64);
        var i := 0;
        while i < len
          invariant 0 <= i <= len && i % 2 == 0
          invariant asciiCharsBE == CountBE(buf, i)
          invariant asciiCharsLE == CountLE(buf, i)
        {
          if buf[i] == 0 && buf[i + 1] != 0 {
            asciiCharsBE := asciiCharsBE + 1;
          }
          if buf[i] != 0 && buf[i + 1] == 0 {
            asciiCharsLE := asciiCharsLE + 1;
          }
          i := i + 2;
        }
        if asciiCharsBE > asciiCharsLE {
          enc := "utf-16be";
        } else if asciiCharsBE < asciiCharsLE {
          enc := "utf-16le";
        }
      }
    }
  }

  /** Text whose sampled pairs all read as big-endian ASCII (`00 xx`) outvotes little-endian. */
  lemma {:induction false} AsciiPairsVoteBigEndian(buf: seq<Byte>, n: nat)
    requires n % 2 == 0 && n <= |buf|
    requires forall k :: 0 <= k < n / 2 ==> buf[2 * k] == 0 && buf[2 * k + 1] != 0
    ensures CountBE(buf, n) == n / 2 && CountLE(buf, n) == 0
  {
    if n > 0 {
      assert buf[2 * ((n - 2) / 2)] == 0;
      AsciiPairsVoteBigEndian(buf, n - 2);
    }
  }
}
