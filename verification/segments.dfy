/**
 * The names of the temporary segment files and the order in which the merge
 * step hands them to the concatenation: segment `i` is written to
 * `segment_{:05}.ts`, the temporary directory is listed and sorted by file
 * name, and only entries whose extension is `ts` go into the file list.
 * File names are compared as byte strings, as `OsString` does on Unix.
 */
module SegmentFiles {
  import opened Wrappers
  import Dashboard

  /** The bytes of "segment_". */
  const PREFIX: seq<byte> := [0x73, 0x65, 0x67, 0x6D, 0x65, 0x6E, 0x74, 0x5F]
  /** The bytes of ".ts". */
  const SUFFIX: seq<byte> := [0x2E, 0x74, 0x73]
  /** The bytes of "ts", the extension the merge step keeps. */
  const TS: seq<byte> := [0x74, 0x73]
  const DOT: byte := 0x2E
  const ZERO: byte := 0x30
  /** The width of `{:05}`. */
  const PAD: nat := 5

  // ---------------------------------------------------------------------
  // Decimal digits
  // ---------------------------------------------------------------------

  function Digit(d: nat): (c: byte)
    requires d < 10
    ensures ZERO <= c <= 0x39 && c as int - ZERO as int == d
  {
    (0x30 + d) as byte
  }

  predicate IsDigit(c: byte) {
    ZERO <= c <= 0x39
  }

  /** `n` in decimal without leading zeros, as `{}` prints a `usize`. */
  function Digits(n: nat): (ds: seq<byte>)
    decreases n
    ensures 0 < |ds| && forall k :: 0 <= k < |ds| ==> IsDigit(ds[k])
    ensures ds[0] == ZERO <==> n == 0
    ensures n == 0 ==> ds == [ZERO]
  {
    if n < 10 then [Digit(n)]
    else
      var high := Digits(n / 10);
      assert (high + [Digit(n % 10)])[0] == high[0];
      high + [Digit(n % 10)]
  }

  /** `{:0w}`: the decimal digits, padded on the left with '0' to at least `w` bytes. */
  function ZeroPad(n: nat, w: nat): (ds: seq<byte>)
    ensures |ds| == Max(w, |Digits(n)|)
    ensures forall k :: 0 <= k < |ds| ==> IsDigit(ds[k])
  {
    var d := Digits(n);
    if |d| < w then seq(w - |d|, _ => ZERO) + d else d
  }

  /**
   * `format!("segment_{:05}.ts", i)`: "segment_", at least five decimal
   * digits that spell `i`, then ".ts".
   */
  function SegmentName(i: nat): (name: seq<byte>)
    ensures |name| == 8 + Max(PAD, |Digits(i)|) + 3
    ensures name[..8] == PREFIX && name[|name| - 3..] == SUFFIX
    ensures forall k :: 8 <= k < |name| - 3 ==> IsDigit(name[k])
    ensures Value(name[8..|name| - 3]) == i
  {
    var pad := ZeroPad(i, PAD);
    ZeroPadValue(i, PAD);
    var name := PREFIX + pad + SUFFIX;
    assert name[8..|name| - 3] == pad;
    name
  }

  /** The number a string of decimal digits spells, most significant first. */
  function Value(ds: seq<byte>): nat
    requires forall k :: 0 <= k < |ds| ==> IsDigit(ds[k])
  {
    if ds == [] then 0
    else
      var last := ds[|ds| - 1];
      assert IsDigit(last);
      Value(ds[..|ds| - 1]) * 10 + (last as int - ZERO as int)
  }

  /** The decimal form reads back as the number it was made from. */
  lemma {:induction false} DigitsValue(n: nat)
    decreases n
    ensures Value(Digits(n)) == n
  {
    if 10 <= n {
      var ds := Digits(n);
      DigitsValue(n / 10);
      assert ds[..|ds| - 1] == Digits(n / 10);
    }
  }

  /** Leading zeros do not change the value. */
  lemma {:induction false} LeadingZerosValue(k: nat, ds: seq<byte>)
    requires forall j :: 0 <= j < |ds| ==> IsDigit(ds[j])
    ensures Value(seq(k, _ => ZERO) + ds) == Value(ds)
  {
    var zs: seq<byte> := seq(k, _ => ZERO);
    if ds == [] {
      assert zs + ds == zs;
      ZerosValue(k);
    } else {
      var init := ds[..|ds| - 1];
      LeadingZerosValue(k, init);
      assert (zs + ds)[..|zs + ds| - 1] == zs + init;
    }
  }

  lemma {:induction false} ZerosValue(k: nat)
    ensures Value(seq(k, _ => ZERO)) == 0
  {
    if 0 < k {
      ZerosValue(k - 1);
      assert seq(k, _ => ZERO)[..k - 1] == seq(k - 1, _ => ZERO);
    }
  }

  /** `{:05}` reads back as the index: distinct segments get distinct names. */
  lemma ZeroPadValue(n: nat, w: nat)
    ensures Value(ZeroPad(n, w)) == n
  {
    DigitsValue(n);
    if |Digits(n)| < w {
      LeadingZerosValue(w - |Digits(n)|, Digits(n));
    }
  }

  /** The index a segment file name spells, if it has the segment shape. */
  function ParseSegmentName(name: seq<byte>): (r: Option<nat>)
    ensures r.Some? ==> |name| >= 11 && name[..8] == PREFIX && name[|name| - 3..] == SUFFIX
  {
    if |name| >= 11 && name[..8] == PREFIX && name[|name| - 3..] == SUFFIX
      && forall k :: 8 <= k < |name| - 3 ==> IsDigit(name[k])
    then Some(Value(name[8..|name| - 3]))
    else None
  }

  /** Every segment name parses back to its index. */
  lemma ParseSegmentNameRoundTrip(i: nat)
    ensures ParseSegmentName(SegmentName(i)) == Some(i)
  {
    var name := SegmentName(i);
    var pad := ZeroPad(i, PAD);
    assert name[..8] == PREFIX;
    assert name[|name| - 3..] == SUFFIX;
    assert name[8..|name| - 3] == pad;
    ZeroPadValue(i, PAD);
  }

  // ---------------------------------------------------------------------
  // Byte-string order
  // ---------------------------------------------------------------------

  /** Lexicographic order on bytes; a proper prefix sorts first. */
  predicate LexLess(a: seq<byte>, b: seq<byte>)
    decreases |a|
  {
    0 < |b| && (|a| == 0 || a[0] < b[0] || (a[0] == b[0] && LexLess(a[1..], b[1..])))
  }

  lemma {:induction false} LexLessIrreflexive(a: seq<byte>)
    decreases |a|
    ensures !LexLess(a, a)
  {
    if 0 < |a| {
      LexLessIrreflexive(a[1..]);
    }
  }

  /** Of two different byte strings, one sorts before the other. */
  lemma {:induction false} LexLessTotal(a: seq<byte>, b: seq<byte>)
    requires a != b
    decreases |a|
    ensures LexLess(a, b) || LexLess(b, a)
  {
    if 0 < |a| && 0 < |b| && a[0] == b[0] {
      assert a[1..] != b[1..] by { assert a == [a[0]] + a[1..] && b == [b[0]] + b[1..]; }
      LexLessTotal(a[1..], b[1..]);
    }
  }

  lemma {:induction false} LexLessAsymmetric(a: seq<byte>, b: seq<byte>)
    requires LexLess(a, b)
    decreases |a|
    ensures !LexLess(b, a)
  {
    if 0 < |a| && a[0] == b[0] {
      LexLessAsymmetric(a[1..], b[1..]);
    }
  }

  lemma {:induction false} LexLessTransitive(a: seq<byte>, b: seq<byte>, c: seq<byte>)
    requires LexLess(a, b) && LexLess(b, c)
    decreases |a|
    ensures LexLess(a, c)
  {
    if 0 < |a| && a[0] == b[0] && b[0] == c[0] {
      LexLessTransitive(a[1..], b[1..], c[1..]);
    }
  }

  /** A shared prefix does not decide the order. */
  lemma {:induction false} LexLessCommonPrefix(p: seq<byte>, a: seq<byte>, b: seq<byte>)
    decreases |p|
    ensures LexLess(p + a, p + b) <==> LexLess(a, b)
  {
    if 0 < |p| {
      LexLessCommonPrefix(p[1..], a, b);
      assert (p + a)[1..] == p[1..] + a;
      assert (p + b)[1..] == p[1..] + b;
    } else {
      assert p + a == a && p + b == b;
    }
  }

  /** Two different strings of equal length are ordered before anything appended to them is read. */
  lemma {:induction false} LexLessEqualLength(a: seq<byte>, b: seq<byte>, s: seq<byte>, t: seq<byte>)
    requires |a| == |b| && a != b
    decreases |a|
    ensures LexLess(a + s, b + t) <==> LexLess(a, b)
  {
    assert 0 < |a|;
    if a[0] == b[0] {
      assert a[1..] != b[1..] by { assert a == [a[0]] + a[1..] && b == [b[0]] + b[1..]; }
      LexLessEqualLength(a[1..], b[1..], s, t);
      assert (a + s)[1..] == a[1..] + s;
      assert (b + t)[1..] == b[1..] + t;
    }
  }

  /** The order of equal-length strings with one more byte each. */
  lemma LexLessAppendByte(a: seq<byte>, b: seq<byte>, x: byte, y: byte)
    requires |a| == |b|
    ensures LexLess(a + [x], b + [y]) <==> LexLess(a, b) || (a == b && x < y)
  {
    if a == b {
      LexLessCommonPrefix(a, [x], [y]);
      LexLessIrreflexive(a);
    } else {
      LexLessEqualLength(a, b, [x], [y]);
    }
  }

  // ---------------------------------------------------------------------
  // Fixed-width digits and the order of segment names
  // ---------------------------------------------------------------------

  function Pow10(w: nat): (p: nat)
    ensures 0 < p
  {
    if w == 0 then 1 else 10 * Pow10(w - 1)
  }

  /** The lowest `w` decimal digits of `n`, most significant first. */
  function FixedDigits(n: nat, w: nat): (ds: seq<byte>)
    ensures |ds| == w
  {
    if w == 0 then [] else FixedDigits(n / 10, w - 1) + [Digit(n % 10)]
  }

  lemma {:induction false} FixedDigitsOfZero(w: nat)
    ensures FixedDigits(0, w) == seq(w, _ => ZERO)
  {
    if 0 < w {
      FixedDigitsOfZero(w - 1);
    }
  }

  /** Below `10^w`, `{:0w}` is exactly the `w` lowest digits. */
  lemma {:induction false} ZeroPadIsFixedDigits(n: nat, w: nat)
    requires 0 < w && n < Pow10(w)
    decreases w
    ensures |Digits(n)| <= w
    ensures ZeroPad(n, w) == FixedDigits(n, w)
  {
    if n < 10 {
      FixedDigitsOfZero(w - 1);
      assert FixedDigits(n, w) == seq(w - 1, _ => ZERO) + [Digit(n)];
    } else {
      assert Pow10(1) == 10;
      ZeroPadIsFixedDigits(n / 10, w - 1);
      var high := Digits(n / 10);
      var zs: seq<byte> := seq(w - 1 - |high|, _ => ZERO);
      assert ZeroPad(n / 10, w - 1) == zs + high;
      assert ZeroPad(n, w) == zs + high + [Digit(n % 10)];
    }
  }

  /** Fixed-width digit strings sort as the numbers they spell. */
  lemma {:induction false} FixedDigitsOrder(m: nat, n: nat, w: nat)
    requires m < Pow10(w) && n < Pow10(w)
    decreases w
    ensures LexLess(FixedDigits(m, w), FixedDigits(n, w)) <==> m < n
  {
    if w == 0 {
      LexLessIrreflexive([]);
    } else {
      FixedDigitsOrder(m / 10, n / 10, w - 1);
      FixedDigitsOrder(n / 10, m / 10, w - 1);
      LexLessIrreflexive(FixedDigits(m / 10, w - 1));
      LexLessAppendByte(FixedDigits(m / 10, w - 1), FixedDigits(n / 10, w - 1), Digit(m % 10), Digit(n % 10));
    }
  }

  /** Below 100000 every name has 16 bytes: "segment_", five digits, ".ts". */
  lemma SegmentNameLength(i: nat)
    requires i < 100000
    ensures |SegmentName(i)| == 16
  {
    ZeroPadIsFixedDigits(i, PAD);
  }

  /**
   * Below 100000 segments, sorting the names by bytes sorts the segments by
   * index: the property the merge step relies on.
   */
  lemma SegmentNameOrder(i: nat, j: nat)
    requires i < 100000 && j < 100000
    ensures LexLess(SegmentName(i), SegmentName(j)) <==> i < j
  {
    assert Pow10(PAD) == 100000;
    ZeroPadIsFixedDigits(i, PAD);
    ZeroPadIsFixedDigits(j, PAD);
    var di, dj := FixedDigits(i, PAD), FixedDigits(j, PAD);
    SegmentNameParts(i);
    SegmentNameParts(j);
    LexLessCommonPrefix(PREFIX, di + SUFFIX, dj + SUFFIX);
    FixedDigitsOrder(i, j, PAD);
    FixedDigitsOrder(j, i, PAD);
    if i == j {
      LexLessIrreflexive(SegmentName(i));
    } else {
      LexLessIrreflexive(di);
      LexLessEqualLength(di, dj, SUFFIX, SUFFIX);
    }
  }

  /** From 100000 segments on the order breaks: segment 100000 sorts before segment 99999. */
  lemma SegmentNameOrderBreaksAt100000()
    ensures LexLess(SegmentName(100000), SegmentName(99999))
  {
    assert Digits(100000)[0] == Digits(10000)[0] == Digits(1000)[0] == Digits(100)[0]
        == Digits(10)[0] == Digits(1)[0] == 0x31;
    assert Digits(99999)[0] == Digits(9999)[0] == Digits(999)[0] == Digits(99)[0]
        == Digits(9)[0] == 0x39;
    assert |Digits(99999)| == 5;
    var a := ZeroPad(100000, PAD) + SUFFIX;
    var b := ZeroPad(99999, PAD) + SUFFIX;
    SegmentNameParts(100000);
    SegmentNameParts(99999);
    LexLessCommonPrefix(PREFIX, a, b);
    assert a[0] == 0x31 && b[0] == 0x39;
  }

  lemma SegmentNameParts(i: nat)
    ensures SegmentName(i) == PREFIX + (ZeroPad(i, PAD) + SUFFIX)
  {
  }

  // ---------------------------------------------------------------------
  // The `.ts` filter
  // ---------------------------------------------------------------------

  /** The position of the last '.', if any. */
  function LastDot(name: seq<byte>): (r: Option<nat>)
    ensures r.None? <==> forall k :: 0 <= k < |name| ==> name[k] != DOT
    ensures r.Some? ==>
      && r.value < |name| && name[r.value] == DOT
      && forall k :: r.value < k < |name| ==> name[k] != DOT
  {
    if name == [] then None
    else if name[|name| - 1] == DOT then Some(|name| - 1)
    else LastDot(name[..|name| - 1])
  }

  /**
   * `Path::extension` of a file name: the bytes after the last '.', unless
   * there is no '.', the only '.' is the first byte, or the name is "..".
   */
  function Extension(name: seq<byte>): (r: Option<seq<byte>>)
    ensures r.Some? ==>
      && |r.value| + 1 < |name|
      && name == name[..|name| - |r.value| - 1] + [DOT] + r.value
      && DOT !in r.value
    ensures r.None? <==>
      || name == [DOT, DOT]
      || (forall k :: 0 <= k < |name| ==> name[k] != DOT)
      || (0 < |name| && name[0] == DOT && forall k :: 0 < k < |name| ==> name[k] != DOT)
  {
    if name == [DOT, DOT] then None
    else
      match LastDot(name)
      case None => None
      case Some(k) =>
        if k == 0 then None
        else
          var e := name[k + 1..];
          assert name == name[..k] + [DOT] + e;
          assert forall j :: 0 <= j < |e| ==> e[j] == name[k + 1 + j];
          Some(e)
  }

  /** `extension().and_then(to_str) == Some("ts")`. */
  predicate IsTsFile(name: seq<byte>) {
    Extension(name) == Some(TS)
  }

  /** A name is kept exactly when it ends in ".ts" after at least one other byte. */
  lemma TsFileIff(name: seq<byte>)
    ensures IsTsFile(name) <==> 4 <= |name| && name[|name| - 3..] == SUFFIX
  {
    if 4 <= |name| && name[|name| - 3..] == SUFFIX {
      assert name[|name| - 3] == DOT && name[|name| - 2] != DOT && name[|name| - 1] != DOT;
      assert LastDot(name).value == |name| - 3;
      assert name[|name| - 2..] == TS;
    }
    if IsTsFile(name) {
      var k := LastDot(name).value;
      assert |name[k + 1..]| == 2;
      assert name[|name| - 3..] == [name[k]] + name[k + 1..];
    }
  }

  /** Every segment file passes the filter. */
  lemma SegmentNameIsTsFile(i: nat)
    ensures IsTsFile(SegmentName(i))
  {
    var name := SegmentName(i);
    assert name[|name| - 3..] == SUFFIX;
    TsFileIff(name);
  }

  /** The entries that pass the filter, in listing order. */
  function TsFiles(names: seq<seq<byte>>): (r: seq<seq<byte>>)
    ensures |r| <= |names|
  {
    if names == [] then []
    else
      var init := TsFiles(names[..|names| - 1]);
      if IsTsFile(names[|names| - 1]) then init + [names[|names| - 1]] else init
  }

  /** The filter keeps an entry exactly when it has the `ts` extension. */
  lemma {:induction false} TsFilesMembers(names: seq<seq<byte>>)
    ensures forall x :: x in TsFiles(names) <==> x in names && IsTsFile(x)
  {
    if names != [] {
      var init := names[..|names| - 1];
      TsFilesMembers(init);
      assert names == init + [names[|names| - 1]];
    }
  }

  /** Strictly ascending by bytes, as the sorted listing of a directory is. */
  predicate StrictlySorted(names: seq<seq<byte>>) {
    forall i, j :: 0 <= i < j < |names| ==> LexLess(names[i], names[j])
  }

  /** Filtering a sorted listing keeps it sorted. */
  lemma {:induction false} TsFilesSorted(names: seq<seq<byte>>)
    requires StrictlySorted(names)
    ensures StrictlySorted(TsFiles(names))
  {
    if names != [] {
      var init := names[..|names| - 1];
      var last := names[|names| - 1];
      TsFilesSorted(init);
      TsFilesMembers(init);
      var kept := TsFiles(init);
      forall x | x in kept
        ensures LexLess(x, last)
      {
        var i :| 0 <= i < |init| && init[i] == x;
        assert names[i] == x;
      }
    }
  }

  /**
   * The merge step's loop over the sorted listing: each entry with the `ts`
   * extension is appended to the concatenation list, in listing order.
   */
  method ConcatList(sorted: seq<seq<byte>>) returns (list: seq<seq<byte>>)
    ensures list == TsFiles(sorted)
  {
    list := [];
    var i := 0;
    while i < |sorted|
      invariant 0 <= i <= |sorted|
      invariant list == TsFiles(sorted[..i])
    {
      assert sorted[..i + 1][..i] == sorted[..i];
      if IsTsFile(sorted[i]) {
        list := list + [sorted[i]];
      }
      i := i + 1;
    }
    assert sorted[..i] == sorted;
  }

  /** A strictly increasing run of `n` indices below `n` is 0, 1, ..., n-1. */
  lemma {:induction false} IncreasingBelowIsIdentity(ids: seq<nat>, n: nat)
    requires |ids| == n
    requires forall k :: 0 <= k < n ==> ids[k] < n
    requires forall i, j :: 0 <= i < j < n ==> ids[i] < ids[j]
    ensures forall k :: 0 <= k < n ==> ids[k] == k
  {
    if 0 < n {
      var init := ids[..n - 1];
      assert forall k :: 0 <= k < n - 1 ==> init[k] < ids[n - 1];
      IncreasingBelowIsIdentity(init, n - 1);
      if 1 < n {
        assert ids[n - 2] == n - 2;
      }
    }
  }

  /**
   * In any sorted listing, whatever else it holds (names left over from an
   * earlier run, other `.ts` files, gaps where a segment failed), two
   * segment files below 100000 reach the concatenation in index order.
   */
  lemma ConcatListFollowsIndexOrder(sorted: seq<seq<byte>>, i: nat, j: nat, a: nat, b: nat)
    requires StrictlySorted(sorted)
    requires i < j < |TsFiles(sorted)|
    requires a < 100000 && b < 100000
    requires TsFiles(sorted)[i] == SegmentName(a) && TsFiles(sorted)[j] == SegmentName(b)
    ensures a < b
  {
    TsFilesSorted(sorted);
    SegmentNameOrder(a, b);
  }

  /**
   * When the concatenation list holds only segment files below 100000, their
   * indices strictly increase along it: the segments that did download are
   * merged in playlist order, with failed ones simply missing.
   */
  lemma ConcatListIncreasing(sorted: seq<seq<byte>>, ids: seq<nat>)
    requires StrictlySorted(sorted)
    requires |TsFiles(sorted)| == |ids|
    requires forall k :: 0 <= k < |ids| ==> ids[k] < 100000 && TsFiles(sorted)[k] == SegmentName(ids[k])
    ensures forall i, j :: 0 <= i < j < |ids| ==> ids[i] < ids[j]
  {
    forall i, j | 0 <= i < j < |ids|
      ensures ids[i] < ids[j]
    {
      ConcatListFollowsIndexOrder(sorted, i, j, ids[i], ids[j]);
    }
  }

  /**
   * A complete run: when the list holds the names of all segments 0..n-1,
   * with n <= 100000, it is exactly segment 0, 1, ..., n-1.
   */
  lemma ConcatListIsPlaylistOrder(sorted: seq<seq<byte>>, ids: seq<nat>, n: nat)
    requires StrictlySorted(sorted) && n <= 100000
    requires |TsFiles(sorted)| == |ids| == n
    requires forall k :: 0 <= k < n ==> ids[k] < n && TsFiles(sorted)[k] == SegmentName(ids[k])
    ensures forall k :: 0 <= k < n ==> TsFiles(sorted)[k] == SegmentName(k)
  {
    ConcatListIncreasing(sorted, ids);
    IncreasingBelowIsIdentity(ids, n);
  }

  /** The Activity panel shows segment names whole: 16 bytes is within its 20-byte limit. */
  lemma SegmentNameShownWhole(i: nat)
    requires i < 100000
    ensures Dashboard.TruncateName(SegmentName(i)) == Some(SegmentName(i))
  {
    SegmentNameLength(i);
  }
}
