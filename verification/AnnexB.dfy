/**
  The recorder's Annex B scanner (stream_server/src/compressed_recorder.c, 354-448).

  A byte stream is a series of start codes (00 00 01, or 00 00 00 01), each followed by a
  NAL unit and any number of zero bytes: section B.1.1 of ITU-T H.264 and section B.2.1 of
  ITU-T H.265. `Unit`, `Render` and `Join` write that grammar down; `NextCode` and `Nals`
  say what the scanner reports. The lemmas connect the two in both directions.
 */
module AnnexB {
  import opened Bytes

  // ---------- the scanner ----------

  /** Length of the start code at `pos`, 0 if there is none; the short form is tried first. */
  function CodeLen(d: seq<byte>, pos: nat): (n: nat)
    ensures n == 0 || ((n == 3 || n == 4) && pos + n <= |d| && d[pos + n - 1] == 1)
  {
    if pos + 3 <= |d| && d[pos] == 0 && d[pos + 1] == 0 && d[pos + 2] == 1 then 3
    else if pos + 4 <= |d| && d[pos] == 0 && d[pos + 1] == 0 && d[pos + 2] == 0 && d[pos + 3] == 1 then 4
    else 0
  }

  /** `p` is the first start code at or after `start`; `|d|` stands for none. */
  ghost predicate FirstCode(d: seq<byte>, start: nat, p: nat) {
    && (p < |d| ==> CodeLen(d, p) > 0)
    && forall i :: start <= i < p ==> CodeLen(d, i) == 0
  }

  /** The first start code at or after `start`, or `|d|` when there is none. */
  function NextCode(d: seq<byte>, start: nat): (p: nat)
    requires start <= |d|
    ensures start <= p <= |d|
    ensures FirstCode(d, start, p)
    decreases |d| - start
  {
    if start == |d| then |d|
    else if CodeLen(d, start) > 0 then start
    else NextCode(d, start + 1)
  }

  predicate HasCode(d: seq<byte>) {
    NextCode(d, 0) < |d|
  }

  function TrimZeros(s: seq<byte>): (r: seq<byte>)
    ensures |r| <= |s| && r == s[..|r|]
    ensures forall i :: |r| <= i < |s| ==> s[i] == 0
    ensures r != [] ==> r[|r| - 1] != 0
  {
    if s == [] || s[|s| - 1] != 0 then s else TrimZeros(s[..|s| - 1])
  }

  /** Puts a NAL in front of the others; empty NALs are not reported. */
  function Report(nal: seq<byte>, rest: seq<seq<byte>>): seq<seq<byte>> {
    if nal == [] then rest else [nal] + rest
  }

  lemma ReportAppend(nal: seq<byte>, xs: seq<seq<byte>>, ys: seq<seq<byte>>)
    ensures Report(nal, xs + ys) == Report(nal, xs) + ys
  {
    if nal != [] {
      assert [nal] + (xs + ys) == ([nal] + xs) + ys;
    }
  }

  /** Where the NAL behind the start code at `pos` begins. */
  function BodyStart(d: seq<byte>, pos: nat): (s: nat)
    ensures pos <= s && (pos <= |d| ==> s <= |d|)
  {
    pos + CodeLen(d, pos)
  }

  /** The NAL behind the start code at `pos`, its padding removed. */
  function NalAt(d: seq<byte>, pos: nat): seq<byte>
    requires pos <= |d|
  {
    var s := BodyStart(d, pos);
    TrimZeros(d[s..NextCode(d, s)])
  }

  /** Where the scan loop goes from the start code at `pos`. */
  function Next(d: seq<byte>, pos: nat): (next: nat)
    requires AtCode(d, pos)
    ensures AtCode(d, next) && BodyStart(d, pos) <= next
  {
    NextCode(d, BodyStart(d, pos))
  }

  /** The scan loop's positions: a start code, or the end. */
  predicate AtCode(d: seq<byte>, pos: nat) {
    pos <= |d| && (pos < |d| ==> CodeLen(d, pos) > 0)
  }

  /** NALs the scan loop reports from the start code at `pos` on. */
  function NalsFrom(d: seq<byte>, pos: nat): seq<seq<byte>>
    requires AtCode(d, pos)
    decreases |d| - pos
  {
    if pos == |d| then [] else Report(NalAt(d, pos), NalsFrom(d, Next(d, pos)))
  }

  /** Everything `analyze_payload` reports: a payload without start code is one NAL as it stands. */
  function Nals(d: seq<byte>): seq<seq<byte>> {
    if HasCode(d) then NalsFrom(d, NextCode(d, 0)) else Report(d, [])
  }

  // ---------- the byte stream format ----------

  datatype Unit = Unit(code: nat, nal: seq<byte>, zeros: nat)

  predicate WellFormed(u: Unit) {
    && (u.code == 3 || u.code == 4)
    && !HasCode(u.nal)
    && (u.nal != [] ==> u.nal[|u.nal| - 1] != 0)
  }

  function Code(n: nat): seq<byte> {
    if n == 4 then [0, 0, 0, 1] else [0, 0, 1]
  }

  function Render(u: Unit): seq<byte> {
    Code(u.code) + u.nal + Zeros(u.zeros)
  }

  function Join(us: seq<Unit>): seq<byte> {
    if us == [] then [] else Render(us[0]) + Join(us[1..])
  }

  /** The NALs of a series of units, the empty ones left out. */
  function NalsOf(us: seq<Unit>): seq<seq<byte>> {
    if us == [] then [] else Report(us[0].nal, NalsOf(us[1..]))
  }

  predicate AllWellFormed(us: seq<Unit>) {
    forall i :: 0 <= i < |us| ==> WellFormed(us[i])
  }

  /** The unit the scanner sees at the start code at `pos`. */
  function UnitAt(d: seq<byte>, pos: nat): Unit
    requires pos < |d| && AtCode(d, pos)
  {
    var nal := NalAt(d, pos);
    Unit(BodyStart(d, pos) - pos, nal, Next(d, pos) - BodyStart(d, pos) - |nal|)
  }

  /** The units the scanner sees from the start code at `pos` on. */
  function UnitsFrom(d: seq<byte>, pos: nat): seq<Unit>
    requires AtCode(d, pos)
    decreases |d| - pos
  {
    if pos == |d| then [] else [UnitAt(d, pos)] + UnitsFrom(d, Next(d, pos))
  }

  // ---------- positions ----------

  lemma {:induction false} NextCodeUnique(d: seq<byte>, start: nat, p: nat)
    requires start <= p <= |d| && FirstCode(d, start, p)
    ensures NextCode(d, start) == p
  {
    hide CodeLen;
    var q := NextCode(d, start);
    assert q < |d| ==> CodeLen(d, q) > 0;
    assert p < |d| ==> CodeLen(d, p) > 0;
  }

  lemma CodeLenShift(a: seq<byte>, b: seq<byte>, i: nat)
    ensures CodeLen(a + b, |a| + i) == CodeLen(b, i)
  {
  }

  lemma {:induction false} NextCodeShift(a: seq<byte>, b: seq<byte>, s: nat)
    requires s <= |b|
    ensures NextCode(a + b, |a| + s) == |a| + NextCode(b, s)
  {
    hide CodeLen;
    var p := NextCode(b, s);
    CodeLenShift(a, b, p);
    forall j | |a| + s <= j < |a| + p ensures CodeLen(a + b, j) == 0 {
      CodeLenShift(a, b, j - |a|);
    }
    NextCodeUnique(a + b, |a| + s, |a| + p);
  }

  /** From start codes that end at the same place of `b`, the scans agree. */
  lemma {:induction false} NalsFromShift(a: seq<byte>, b: seq<byte>, p: nat, q: nat)
    requires p < |a + b| && AtCode(a + b, p) && q < |b| && AtCode(b, q)
    requires BodyStart(a + b, p) == |a| + BodyStart(b, q)
    ensures NalsFrom(a + b, p) == NalsFrom(b, q)
    decreases |b| - q
  {
    hide CodeLen, NextCode, FirstCode, TrimZeros, Report, NalAt;
    NalAtShift(a, b, p, q);
    var next := Next(b, q);
    if next < |b| {
      CodeLenShift(a, b, next);
      NalsFromShift(a, b, |a| + next, next);
    }
  }

  lemma NalAtShift(a: seq<byte>, b: seq<byte>, p: nat, q: nat)
    requires p < |a + b| && AtCode(a + b, p) && q < |b| && AtCode(b, q)
    requires BodyStart(a + b, p) == |a| + BodyStart(b, q)
    ensures Next(a + b, p) == |a| + Next(b, q) && NalAt(a + b, p) == NalAt(b, q)
  {
    hide CodeLen, NextCode, FirstCode, TrimZeros;
    var s := BodyStart(b, q);
    var next := Next(b, q);
    NextCodeShift(a, b, s);
    assert (a + b)[|a| + s..|a| + next] == b[s..next];
  }

  /** The first code of `b` is one of `a + b`, and from it on the scans agree. */
  lemma FirstCodeShift(a: seq<byte>, b: seq<byte>)
    requires HasCode(b)
    ensures AtCode(a + b, |a| + NextCode(b, 0)) && NalsFrom(a + b, |a| + NextCode(b, 0)) == Nals(b)
  {
    hide CodeLen, NextCode, NalsFrom;
    var q := NextCode(b, 0);
    CodeLenShift(a, b, q);
    assert CodeLen(b, q) > 0;
    hide FirstCode;
    NalsFromShift(a, b, |a| + q, q);
  }

  lemma {:induction false} TrimZerosUnique(s: seq<byte>, r: seq<byte>)
    requires |r| <= |s| && r == s[..|r|]
    requires forall i :: |r| <= i < |s| ==> s[i] == 0
    requires r != [] ==> r[|r| - 1] != 0
    ensures TrimZeros(s) == r
  {
    var t := TrimZeros(s);
    assert |t| < |r| ==> s[|r| - 1] == 0;
    assert |r| < |t| ==> s[|t| - 1] == 0;
  }

  // ---------- splitting a concatenation ----------

  /** What makes a packet safe to append: only zero bytes stand before its first start code. */
  predicate Aligned(b: seq<byte>) {
    forall i :: 0 <= i < NextCode(b, 0) ==> b[i] == 0
  }

  /** A start code that exists in `a` is found at the same place when `b` follows. */
  lemma {:induction false} NextCodeInFirst(a: seq<byte>, b: seq<byte>, s: nat)
    requires s <= |a| && NextCode(a, s) < |a|
    ensures NextCode(a + b, s) == NextCode(a, s)
    ensures CodeLen(a + b, NextCode(a, s)) == CodeLen(a, NextCode(a, s))
  {
    var p := NextCode(a, s);
    forall i | s <= i < p ensures CodeLen(a + b, i) == 0 {
      assert CodeLen(a, i) == 0;
    }
    NextCodeUnique(a + b, s, p);
  }

  /**
    Behind the last start code of `a`: the next one is the first of `b`, or starts one byte
    earlier when a zero at the end of `a` turns the short code of `b` into a long one.
    Either way it ends at the same place and only zeros lie around it.
   */
  lemma {:induction false} NextCodeAcross(a: seq<byte>, b: seq<byte>, s: nat)
    requires 0 < s <= |a| && a[s - 1] == 1 && NextCode(a, s) == |a|
    requires HasCode(b) && Aligned(b)
    ensures var p := NextCode(a + b, s);
      && p < |a + b|
      && BodyStart(a + b, p) == |a| + BodyStart(b, NextCode(b, 0))
      && TrimZeros((a + b)[s..p]) == TrimZeros(a[s..])
  {
    hide CodeLen, TrimZeros, NextCode, FirstCode, Aligned;
    var q := NextCode(b, 0);
    CodeLenShift(a, b, q);
    FirstCodeLength(b);
    if q == 0 && CodeLen(b, 0) == 3 && a[|a| - 1] == 0 {
      NextCodeMerged(a, b, s);
    } else {
      NextCodeApart(a, b, s);
      TrimAcross(a, b, s);
    }
  }

  lemma FirstCodeLength(b: seq<byte>)
    requires HasCode(b)
    ensures CodeLen(b, NextCode(b, 0)) == 3 || CodeLen(b, NextCode(b, 0)) == 4
  {
    hide NextCode;
    assert FirstCode(b, 0, NextCode(b, 0));
  }

  lemma NextCodeApart(a: seq<byte>, b: seq<byte>, s: nat)
    requires s <= |a| && NextCode(a, s) == |a|
    requires HasCode(b) && Aligned(b)
    requires NextCode(b, 0) > 0 || CodeLen(b, 0) == 4 || (|a| > 0 && a[|a| - 1] != 0)
    ensures NextCode(a + b, s) == |a| + NextCode(b, 0)
  {
    var q := NextCode(b, 0);
    CodeLenShift(a, b, q);
    NoCodeInZeros(a, b, q);
    NoCodeAcross(a, b, s);
    hide CodeLen, NextCode;
    NextCodeUnique(a + b, s, |a| + q);
  }

  lemma NoCodeInZeros(a: seq<byte>, b: seq<byte>, q: nat)
    requires q <= |b| && FirstCode(b, 0, q)
    ensures forall i :: |a| <= i < |a| + q ==> CodeLen(a + b, i) == 0
  {
    hide CodeLen;
    forall i | |a| <= i < |a| + q ensures CodeLen(a + b, i) == 0 {
      CodeLenShift(a, b, i - |a|);
    }
  }

  lemma NoCodeAcross(a: seq<byte>, b: seq<byte>, s: nat)
    requires s <= |a| && NextCode(a, s) == |a|
    requires HasCode(b) && Aligned(b)
    requires NextCode(b, 0) > 0 || CodeLen(b, 0) == 4 || (|a| > 0 && a[|a| - 1] != 0)
    ensures forall i :: s <= i < |a| ==> CodeLen(a + b, i) == 0
  {
    forall i | s <= i < |a| ensures CodeLen(a + b, i) == 0 {
      assert CodeLen(a, i) == 0;
      ZerosBeforeOne(b);
    }
  }

  /** The bytes before the final 01 of the first start code are all zero. */
  lemma ZerosBeforeOne(b: seq<byte>)
    requires HasCode(b) && Aligned(b)
    ensures var one := NextCode(b, 0) + CodeLen(b, NextCode(b, 0)) - 1;
      && b[one] == 1
      && (forall k :: 0 <= k < one ==> b[k] == 0)
      && one >= 2
      && (one >= 3 || (NextCode(b, 0) == 0 && CodeLen(b, 0) == 3))
  {
  }

  lemma NextCodeMerged(a: seq<byte>, b: seq<byte>, s: nat)
    requires 0 < s <= |a| && a[s - 1] == 1 && NextCode(a, s) == |a|
    requires HasCode(b) && NextCode(b, 0) == 0 && CodeLen(b, 0) == 3 && a[|a| - 1] == 0
    ensures NextCode(a + b, s) == |a| - 1 && CodeLen(a + b, |a| - 1) == 4
    ensures TrimZeros((a + b)[s..|a| - 1]) == TrimZeros(a[s..])
  {
    forall i | s <= i < |a| - 1 ensures CodeLen(a + b, i) == 0 {
      assert CodeLen(a, i) == 0;
    }
    NextCodeUnique(a + b, s, |a| - 1);
    hide CodeLen, NextCode;
    assert (a + b)[s..|a| - 1] == a[s..][..|a| - 1 - s];
    TrimZerosUnique((a + b)[s..|a| - 1], TrimZeros(a[s..]));
  }

  lemma TrimAcross(a: seq<byte>, b: seq<byte>, s: nat)
    requires s <= |a| && Aligned(b)
    ensures TrimZeros((a + b)[s..|a| + NextCode(b, 0)]) == TrimZeros(a[s..])
  {
    hide NextCode, TrimZeros;
    var q := NextCode(b, 0);
    SliceAcross(a, b, s, q);
    TrimZerosUnique(a[s..] + b[..q], TrimZeros(a[s..]));
  }

  lemma {:induction false} NalsFromConcat(a: seq<byte>, p: nat, b: seq<byte>)
    requires p < |a| && AtCode(a, p) && HasCode(b) && Aligned(b)
    ensures AtCode(a + b, p)
    ensures NalsFrom(a + b, p) == NalsFrom(a, p) + Nals(b)
    decreases |a| - p
  {
    var next := Next(a, p);
    var nal := NalAt(a, p);
    CodeLenPrefix(a, b, p);
    if next < |a| {
      NalAtPrefix(a, b, p);
      NalsFromConcat(a, next, b);
      hide CodeLen, NextCode, TrimZeros, Report;
      ReportAppend(nal, NalsFrom(a, next), Nals(b));
    } else {
      NextCodeAcross(a, b, BodyStart(a, p));
      NalsFromShift(a, b, Next(a + b, p), NextCode(b, 0));
      hide CodeLen, NextCode, TrimZeros, Report;
      assert a[BodyStart(a, p)..next] == a[BodyStart(a, p)..];
      ReportAppend(nal, [], Nals(b));
      assert [] + Nals(b) == Nals(b);
    }
  }

  lemma CodeLenPrefix(a: seq<byte>, b: seq<byte>, p: nat)
    ensures CodeLen(a, p) > 0 ==> CodeLen(a + b, p) == CodeLen(a, p)
  {
  }

  lemma NalAtPrefix(a: seq<byte>, b: seq<byte>, p: nat)
    requires p < |a| && AtCode(a, p) && Next(a, p) < |a|
    ensures AtCode(a + b, p) && Next(a + b, p) == Next(a, p) && NalAt(a + b, p) == NalAt(a, p)
  {
    CodeLenPrefix(a, b, p);
    var s := BodyStart(a, p);
    NextCodeInFirst(a, b, s);
    assert (a + b)[s..Next(a, p)] == a[s..Next(a, p)];
  }

  /**
    Splitting commutes with appending: whatever precedes, a packet whose first start code has
    nothing but zeros before it is split the same in the file as on its own.
   */
  lemma {:induction false} NalsConcat(a: seq<byte>, b: seq<byte>)
    requires HasCode(a) && HasCode(b) && Aligned(b)
    ensures HasCode(a + b)
    ensures Nals(a + b) == Nals(a) + Nals(b)
    ensures Aligned(a) ==> Aligned(a + b)
  {
    NextCodeInFirst(a, b, 0);
    NalsFromConcat(a, NextCode(a, 0), b);
  }

  // ---------- when appending does not commute ----------

  function TotalLen(nals: seq<seq<byte>>): nat {
    if nals == [] then 0 else |nals[0]| + TotalLen(nals[1..])
  }

  lemma {:induction false} TotalLenAppend(xs: seq<seq<byte>>, ys: seq<seq<byte>>)
    ensures TotalLen(xs + ys) == TotalLen(xs) + TotalLen(ys)
  {
    if xs == [] {
      assert xs + ys == ys;
    } else {
      TotalLenAppend(xs[1..], ys);
      assert (xs + ys)[1..] == xs[1..] + ys;
    }
  }

  lemma EmptyLen()
    ensures TotalLen([]) == 0
  {
  }

  lemma ReportLen(nal: seq<byte>, rest: seq<seq<byte>>)
    ensures TotalLen(Report(nal, rest)) == |nal| + TotalLen(rest)
  {
  }

  /** Byte `j` of `b` ends a start code whose zeros begin in `a`. */
  predicate ClosesCode(a: seq<byte>, b: seq<byte>, j: nat) {
    && j <= 1 && j < |b| && b[j] == 1 && (j == 1 ==> b[0] == 0)
    && |a| >= 2 - j && forall k :: |a| - (2 - j) <= k < |a| ==> a[k] == 0
  }

  predicate OnlyZeros(b: seq<byte>, from: nat, to: nat)
    requires to <= |b|
  {
    forall k :: from <= k < to ==> b[k] == 0
  }

  /** A code that begins in `a` ends at byte `j`, and only zeros lie between it and the first code of `b`. */
  predicate ClosesCleanly(a: seq<byte>, b: seq<byte>, j: nat) {
    ClosesCode(a, b, j) && OnlyZeros(b, j + 1, NextCode(b, 0))
  }

  /** What appending `b` to `a` must not put between their NALs: any byte but zeros, and codes. */
  predicate Appendable(a: seq<byte>, b: seq<byte>) {
    Aligned(b) || ClosesCleanly(a, b, 0) || ClosesCleanly(a, b, 1)
  }

  /** The scan of `a` up to its last start code is part of the scan of `a + b`. */
  lemma {:induction false} UpToLastCode(a: seq<byte>, p: nat, b: seq<byte>)
    returns (front: seq<seq<byte>>, last: nat)
    requires p < |a| && AtCode(a, p)
    ensures AtCode(a + b, p)
    ensures last < |a| && AtCode(a, last) && Next(a, last) == |a| && AtCode(a + b, last)
    ensures NalsFrom(a, p) == front + Report(NalAt(a, last), [])
    ensures NalsFrom(a + b, p) == front + NalsFrom(a + b, last)
    decreases |a| - p
  {
    CodeLenPrefix(a, b, p);
    var next := Next(a, p);
    if next == |a| {
      front, last := [], p;
      NothingInFront(Report(NalAt(a, p), []));
      NothingInFront(NalsFrom(a + b, p));
    } else {
      NalAtPrefix(a, b, p);
      front, last := UpToLastCode(a, next, b);
      hide CodeLen, NextCode, TrimZeros, Report, NalAt;
      var nal := NalAt(a, p);
      ReportAppend(nal, front, Report(NalAt(a, last), []));
      ReportAppend(nal, front, NalsFrom(a + b, last));
      front := Report(nal, front);
    }
  }

  lemma NothingInFront(xs: seq<seq<byte>>)
    ensures [] + xs == xs
  {
  }

  /** A code that ends before the first one of `b`, with zeros only ahead of it, makes `b` aligned. */
  lemma EarlyCodeAligns(b: seq<byte>, j: nat)
    requires 2 <= j < |b| && b[j] == 1 && forall k :: 0 <= k < j ==> b[k] == 0
    ensures HasCode(b) && Aligned(b)
  {
    assert CodeLen(b, j - 2) == 3;
    hide CodeLen;
  }

  lemma NothingCloses(a: seq<byte>, b: seq<byte>, s: nat)
    requires s <= |a| && NextCode(a, s) == |a| && HasCode(b) && !Aligned(b)
    requires !ClosesCode(a, b, 0) && !ClosesCode(a, b, 1)
    ensures NextCode(a + b, s) == |a| + NextCode(b, 0)
  {
    var q := NextCode(b, 0);
    CodeLenShift(a, b, q);
    NoCodeInZeros(a, b, q);
    forall i | s <= i < |a| ensures CodeLen(a + b, i) == 0 {
      NoCodeOverBorder(a, b, i);
    }
    hide CodeLen, NextCode;
    NextCodeUnique(a + b, s, |a| + q);
  }

  lemma NoCodeOverBorder(a: seq<byte>, b: seq<byte>, i: nat)
    requires i < |a| && CodeLen(a, i) == 0 && HasCode(b) && !Aligned(b)
    requires !ClosesCode(a, b, 0) && !ClosesCode(a, b, 1)
    ensures CodeLen(a + b, i) == 0
  {
    hide NextCode, HasCode, Aligned;
    var n := CodeLen(a + b, i);
    if n > 0 && i + n > |a| {
      var j := i + n - 1 - |a|;
      assert forall k :: 0 <= k < j ==> b[k] == (a + b)[|a| + k];
      if j >= 2 { EarlyCodeAligns(b, j); }
    }
  }

  lemma StrayByte(b: seq<byte>)
    requires !Aligned(b)
    ensures exists i :: 0 <= i < |b[..NextCode(b, 0)]| && b[..NextCode(b, 0)][i] != 0
  {
    var i :| 0 <= i < NextCode(b, 0) && b[i] != 0;
    assert b[..NextCode(b, 0)][i] != 0;
  }

  lemma TrimWithStray(x: seq<byte>, g: seq<byte>)
    requires exists i :: 0 <= i < |g| && g[i] != 0
    ensures |TrimZeros(x + g)| > |TrimZeros(x)|
  {
    hide TrimZeros;
    var t := TrimZeros(g);
    assert t != [];
    assert (x + g)[..|x + t|] == x + t;
    TrimZerosUnique(x + g, x + t);
  }

  lemma SliceAcross(a: seq<byte>, b: seq<byte>, s: nat, q: nat)
    requires s <= |a| && q <= |b|
    ensures (a + b)[s..|a| + q] == a[s..] + b[..q]
  {
  }

  lemma LastNalGrows(a: seq<byte>, b: seq<byte>, s: nat)
    requires s <= |a| && !Aligned(b)
    ensures |TrimZeros((a + b)[s..|a| + NextCode(b, 0)])| > |TrimZeros(a[s..|a|])|
  {
    StrayByte(b);
    hide NextCode, TrimZeros, Aligned;
    assert a[s..|a|] == a[s..];
    SliceAcross(a, b, s, NextCode(b, 0));
    TrimWithStray(a[s..], b[..NextCode(b, 0)]);
  }

  /** Without such a code the stray bytes become part of the last NAL of `a`. */
  lemma StrayBytesJoinLast(a: seq<byte>, b: seq<byte>, p: nat)
    requires p < |a| && AtCode(a, p) && Next(a, p) == |a| && AtCode(a + b, p)
    requires HasCode(b) && !Aligned(b) && !ClosesCode(a, b, 0) && !ClosesCode(a, b, 1)
    ensures |NalAt(a + b, p)| > |NalAt(a, p)|
    ensures NalsFrom(a + b, p) == Report(NalAt(a + b, p), Nals(b))
  {
    hide CodeLen, FirstCode, NextCode, TrimZeros, Aligned, ClosesCode, Report, NalsFrom;
    CodeLenPrefix(a, b, p);
    NothingCloses(a, b, BodyStart(a, p));
    FirstCodeShift(a, b);
    LastNalGrows(a, b, BodyStart(a, p));
    NalsFromStep(a + b, p);
  }

  /** Where the scan finds the code that begins in `a`; around it lie zeros only. */
  lemma ClosedCode(a: seq<byte>, b: seq<byte>, s: nat, j: nat)
    requires 0 < s <= |a| && a[s - 1] == 1 && NextCode(a, s) == |a| && ClosesCode(a, b, j)
    ensures var c := NextCode(a + b, s);
      c < |a| && BodyStart(a + b, c) == |a| + j + 1 && OnlyZeros(a, c, |a|)
  {
    var d := a + b;
    var c := |a| + j - 2;
    assert c >= s && CodeLen(d, c) == 3;
    forall i | s <= i < c - 1 ensures CodeLen(d, i) == 0 {
      assert CodeLen(a, i) == 0;
      assert forall k :: |a| <= k < |a| + j ==> d[k] == 0;
    }
    assert forall k :: c <= k < |a| ==> d[k] == 0;
    hide NextCode;
    if c > s && CodeLen(d, c - 1) > 0 {
      NextCodeUnique(d, s, c - 1);
    } else {
      NextCodeUnique(d, s, c);
    }
  }

  lemma FirstAfter(b: seq<byte>, j: nat)
    requires j <= 1 && j < |b| && b[j] == 1 && (j == 1 ==> b[0] == 0) && HasCode(b)
    ensures j + 1 <= NextCode(b, 0) && NextCode(b, j + 1) == NextCode(b, 0)
  {
    var q := NextCode(b, 0);
    assert q > j;
    NextCodeUnique(b, j + 1, q);
  }

  lemma LastNalStays(a: seq<byte>, b: seq<byte>, s: nat, c: nat)
    requires s <= c <= |a| && OnlyZeros(a, c, |a|)
    ensures TrimZeros((a + b)[s..c]) == TrimZeros(a[s..|a|])
  {
    hide TrimZeros;
    SliceOfFirst(a, b, s, c);
    TrimPart(a[s..|a|], c - s);
  }

  lemma SliceOfFirst(a: seq<byte>, b: seq<byte>, s: nat, c: nat)
    requires s <= c <= |a|
    ensures (a + b)[s..c] == a[s..|a|][..c - s]
  {
    forall k | 0 <= k < c - s ensures (a + b)[s..c][k] == a[s..|a|][..c - s][k] {
      assert (a + b)[s + k] == a[s + k];
    }
  }

  lemma StrayNal(a: seq<byte>, b: seq<byte>, c: nat, j: nat)
    requires c < |a| && AtCode(a + b, c) && BodyStart(a + b, c) == |a| + j + 1 && HasCode(b)
    requires j + 1 <= NextCode(b, 0) && NextCode(b, j + 1) == NextCode(b, 0)
    ensures NalsFrom(a + b, c) == Report(TrimZeros(b[j + 1..NextCode(b, 0)]), Nals(b))
  {
    hide CodeLen, FirstCode, NextCode, TrimZeros, Report, NalsFrom, Nals;
    var q := NextCode(b, 0);
    NextCodeShift(a, b, j + 1);
    FirstCodeShift(a, b);
    assert (a + b)[|a| + j + 1..|a| + q] == b[j + 1..q];
    NalsFromStep(a + b, c);
  }

  /** With such a code the last NAL of `a` stays, and bytes between the code and the first of `b` are a NAL. */
  lemma StrayBytesAreNal(a: seq<byte>, b: seq<byte>, p: nat, j: nat)
    requires p < |a| && AtCode(a, p) && Next(a, p) == |a| && AtCode(a + b, p)
    requires HasCode(b) && ClosesCode(a, b, j)
    ensures j + 1 <= NextCode(b, 0)
    ensures NalsFrom(a + b, p) == Report(NalAt(a, p), Report(TrimZeros(b[j + 1..NextCode(b, 0)]), Nals(b)))
  {
    hide CodeLen, FirstCode, NextCode, TrimZeros, ClosesCode, Report, OnlyZeros, NalsFrom, Nals;
    CodeLenPrefix(a, b, p);
    var s := BodyStart(a, p);
    ClosedCode(a, b, s, j);
    assert b[j] == 1 && j <= 1 && (j == 1 ==> b[0] == 0) by { ClosingByte(a, b, j); }
    FirstAfter(b, j);
    LastNalStays(a, b, s, NextCode(a + b, s));
    StrayNal(a, b, NextCode(a + b, s), j);
    NalsFromStep(a + b, p);
  }

  lemma ClosingByte(a: seq<byte>, b: seq<byte>, j: nat)
    requires ClosesCode(a, b, j)
    ensures j <= 1 && j < |b| && b[j] == 1 && (j == 1 ==> b[0] == 0)
  {
  }

  lemma NalsFromStep(d: seq<byte>, pos: nat)
    requires pos < |d| && AtCode(d, pos)
    ensures NalsFrom(d, pos) == Report(NalAt(d, pos), NalsFrom(d, Next(d, pos)))
  {
    hide CodeLen, NextCode, TrimZeros, Report;
  }

  lemma TrimPart(x: seq<byte>, n: nat)
    requires n <= |x| && forall k :: n <= k < |x| ==> x[k] == 0
    ensures TrimZeros(x[..n]) == TrimZeros(x)
  {
    hide TrimZeros;
    var y := x[..n];
    var t := TrimZeros(y);
    forall i | |t| <= i < |x| ensures x[i] == 0 {
      if i < n { assert x[i] == y[i]; }
    }
    PrefixOfPrefix(x, n, |t|);
    assert t != [] ==> t[|t| - 1] == x[|t| - 1];
    TrimZerosUnique(x, t);
  }

  lemma PrefixOfPrefix(x: seq<byte>, n: nat, m: nat)
    requires m <= n <= |x|
    ensures x[..n][..m] == x[..m]
  {
  }

  lemma {:induction false} TrimAllZeros(g: seq<byte>)
    ensures TrimZeros(g) == [] <==> OnlyZeros(g, 0, |g|)
  {
    hide TrimZeros;
    var t := TrimZeros(g);
    assert t == g[..|t|];
  }

  /** At the last code of `a`: the NALs of `b` follow as they are, or something has grown. */
  lemma LastCodeSplits(a: seq<byte>, b: seq<byte>, p: nat)
    requires p < |a| && AtCode(a, p) && Next(a, p) == |a| && AtCode(a + b, p) && HasCode(b) && !Aligned(b)
    ensures if Appendable(a, b) then NalsFrom(a + b, p) == Report(NalAt(a, p), Nals(b))
            else TotalLen(NalsFrom(a + b, p)) > |NalAt(a, p)| + TotalLen(Nals(b))
  {
    hide CodeLen, FirstCode, NextCode, TrimZeros, NalsFrom, Report, TotalLen, NalAt;
    if ClosesCode(a, b, 0) || ClosesCode(a, b, 1) {
      var j := if ClosesCode(a, b, 0) then 0 else 1;
      StrayBytesAreNal(a, b, p, j);
      var g := b[j + 1..NextCode(b, 0)];
      TrimAllZeros(g);
      assert OnlyZeros(g, 0, |g|) <==> OnlyZeros(b, j + 1, NextCode(b, 0)) by { SliceZeros(b, j + 1, NextCode(b, 0)); }
      ReportLen(TrimZeros(g), Nals(b));
      ReportLen(NalAt(a, p), Report(TrimZeros(g), Nals(b)));
      if TrimZeros(g) == [] { ReportNothing(Nals(b)); }
    } else {
      StrayBytesJoinLast(a, b, p);
      ReportLen(NalAt(a + b, p), Nals(b));
    }
  }

  lemma ReportNothing(xs: seq<seq<byte>>)
    ensures Report([], xs) == xs
  {
  }

  lemma SliceZeros(b: seq<byte>, from: nat, to: nat)
    requires from <= to <= |b|
    ensures OnlyZeros(b[from..to], 0, to - from) <==> OnlyZeros(b, from, to)
  {
    assert forall k :: from <= k < to ==> b[k] == b[from..to][k - from];
  }

  /** Appending keeps the NALs of both, or else the result has more NAL bytes than both together. */
  lemma {:induction false} NalsKeptOrGrown(a: seq<byte>, b: seq<byte>)
    requires HasCode(a) && HasCode(b)
    ensures HasCode(a + b)
    ensures Appendable(a, b) ==> Nals(a + b) == Nals(a) + Nals(b)
    ensures !Appendable(a, b) ==> TotalLen(Nals(a + b)) > TotalLen(Nals(a)) + TotalLen(Nals(b))
  {
    NextCodeInFirst(a, b, 0);
    var p := NextCode(a, 0);
    if Aligned(b) {
      NalsConcat(a, b);
    } else {
      var front, last := UpToLastCode(a, p, b);
      LastCodeSplits(a, b, last);
      assert Nals(a + b) == NalsFrom(a + b, p) && Nals(a) == NalsFrom(a, p);
      hide *;
      AppendParts(front, NalAt(a, last), Nals(b), NalsFrom(a + b, last));
    }
  }

  lemma AppendParts(front: seq<seq<byte>>, nal: seq<byte>, more: seq<seq<byte>>, tail: seq<seq<byte>>)
    ensures tail == Report(nal, more) ==> front + tail == (front + Report(nal, [])) + more
    ensures TotalLen(tail) > |nal| + TotalLen(more) ==>
      TotalLen(front + tail) > TotalLen(front + Report(nal, [])) + TotalLen(more)
  {
    ReportAppend(nal, [], more);
    NothingInFront(more);
    TotalLenAppend(front, tail);
    TotalLenAppend(front, Report(nal, []));
    ReportLen(nal, []);
    EmptyLen();
    hide Report, TotalLen;
    assert front + (Report(nal, []) + more) == (front + Report(nal, [])) + more;
  }

  /**
    Exactly when appending keeps the NALs, whatever precedes: only zeros lie before the packet's
    first start code, or else between it and a code that the packet's first byte or two complete.
   */
  lemma NalsConcatIff(a: seq<byte>, b: seq<byte>)
    requires HasCode(a) && HasCode(b)
    ensures Nals(a + b) == Nals(a) + Nals(b) <==> Appendable(a, b)
  {
    NalsKeptOrGrown(a, b);
    hide *;
    TotalLenAppend(Nals(a), Nals(b));
  }

  // ---------- round trips with the format ----------

  lemma {:induction false} NalsOfRender(u: Unit)
    requires WellFormed(u)
    ensures NextCode(Render(u), 0) == 0 && CodeLen(Render(u), 0) == |Code(u.code)|
    ensures Nals(Render(u)) == Report(u.nal, [])
  {
    var d := Render(u);
    var c := |Code(u.code)|;
    RenderStartsWithCode(u);
    NoCodeInBody(u);
    hide CodeLen, NextCode, TrimZeros, Report, Render;
    NextCodeUnique(d, c, |d|);
    assert NalsFrom(d, 0) == Report(NalAt(d, 0), NalsFrom(d, |d|));
    BodyOfRender(u);
  }

  lemma RenderStartsWithCode(u: Unit)
    requires WellFormed(u)
    ensures NextCode(Render(u), 0) == 0 && CodeLen(Render(u), 0) == |Code(u.code)|
  {
    assert CodeLen(Render(u), 0) == |Code(u.code)|;
    NextCodeUnique(Render(u), 0, 0);
  }

  lemma BodyOfRender(u: Unit)
    requires WellFormed(u)
    ensures TrimZeros(Render(u)[|Code(u.code)|..|Render(u)|]) == u.nal
  {
    hide TrimZeros, HasCode;
    assert Render(u)[|Code(u.code)|..|Render(u)|] == u.nal + Zeros(u.zeros);
    TrimZerosUnique(u.nal + Zeros(u.zeros), u.nal);
  }

  lemma NoCodeInBody(u: Unit)
    requires WellFormed(u)
    ensures var c := |Code(u.code)|;
      forall i :: c <= i < |Render(u)| ==> CodeLen(Render(u), i) == 0
  {
    var d := Render(u);
    var c := |Code(u.code)|;
    var n := |u.nal|;
    forall i | c <= i < |d| ensures CodeLen(d, i) == 0 {
      assert i < c + n ==> CodeLen(u.nal, i - c) == 0;
      assert n > 0 ==> d[c + n - 1] == u.nal[n - 1];
    }
  }

  lemma {:induction false} JoinStartsWithCode(us: seq<Unit>)
    requires us != [] && AllWellFormed(us)
    ensures NextCode(Join(us), 0) == 0 && HasCode(Join(us))
  {
    NalsOfRender(us[0]);
    NextCodeInFirst(Render(us[0]), Join(us[1..]), 0);
  }

  /** Writing units with either start code and any zero padding, then scanning, returns their NALs. */
  lemma {:induction false} ScanOfJoin(us: seq<Unit>)
    requires AllWellFormed(us)
    ensures Nals(Join(us)) == NalsOf(us)
  {
    if us != [] {
      NalsOfRender(us[0]);
      ScanOfJoin(us[1..]);
      if us[1..] == [] {
        assert Join(us) == Render(us[0]);
      } else {
        JoinStartsWithCode(us[1..]);
        NalsConcat(Render(us[0]), Join(us[1..]));
        ReportAppend(us[0].nal, [], NalsOf(us[1..]));
        assert [] + NalsOf(us[1..]) == NalsOf(us[1..]);
      }
    }
  }

  lemma ConsUnit(u: Unit, us: seq<Unit>)
    ensures Join([u] + us) == Render(u) + Join(us)
    ensures NalsOf([u] + us) == Report(u.nal, NalsOf(us))
    ensures AllWellFormed([u] + us) <==> WellFormed(u) && AllWellFormed(us)
  {
    hide Render, Report, WellFormed;
    var all := [u] + us;
    assert all[0] == u && all[1..] == us;
    assert forall i :: 0 <= i < |us| ==> us[i] == all[i + 1];
  }

  lemma UnitAtLossless(d: seq<byte>, pos: nat)
    requires pos < |d| && AtCode(d, pos)
    ensures Render(UnitAt(d, pos)) == d[pos..Next(d, pos)]
    ensures WellFormed(UnitAt(d, pos))
  {
    hide NextCode, TrimZeros;
    var u := UnitAt(d, pos);
    var s := BodyStart(d, pos);
    var next := Next(d, pos);
    assert d[pos..s] == Code(u.code);
    forall i | 0 <= i < |u.nal| ensures CodeLen(u.nal, i) == 0 {
      assert CodeLen(d, s + i) == 0;
    }
    hide CodeLen, FirstCode, HasCode;
    assert d[s..next] == u.nal + Zeros(u.zeros);
    assert d[pos..next] == d[pos..s] + d[s..next];
    Associate(Code(u.code), u.nal, Zeros(u.zeros));
  }

  lemma {:induction false} UnitsFromLossless(d: seq<byte>, pos: nat)
    requires AtCode(d, pos)
    ensures Join(UnitsFrom(d, pos)) == d[pos..]
    ensures AllWellFormed(UnitsFrom(d, pos))
    ensures NalsOf(UnitsFrom(d, pos)) == NalsFrom(d, pos)
    decreases |d| - pos
  {
    hide CodeLen, NextCode, FirstCode, TrimZeros, NalAt, Report, Render, WellFormed;
    if pos < |d| {
      UnitsFromLossless(d, Next(d, pos));
      UnitsFromStep(d, pos);
    }
  }

  lemma UnitsFromStep(d: seq<byte>, pos: nat)
    requires pos < |d| && AtCode(d, pos)
    ensures var rest := UnitsFrom(d, Next(d, pos));
      && (Join(rest) == d[Next(d, pos)..] ==> Join(UnitsFrom(d, pos)) == d[pos..])
      && (AllWellFormed(rest) ==> AllWellFormed(UnitsFrom(d, pos)))
      && NalsOf(UnitsFrom(d, pos)) == Report(NalAt(d, pos), NalsOf(rest))
  {
    hide CodeLen, NextCode, FirstCode, TrimZeros, NalAt, Report, Render, WellFormed, Join, NalsOf, AllWellFormed;
    UnitAtLossless(d, pos);
    ConsUnit(UnitAt(d, pos), UnitsFrom(d, Next(d, pos)));
    assert UnitsFrom(d, pos) == [UnitAt(d, pos)] + UnitsFrom(d, Next(d, pos));
    SplitAt(d, pos, Next(d, pos));
  }

  lemma SplitAt(d: seq<byte>, i: nat, j: nat)
    requires i <= j <= |d|
    ensures d[i..] == d[i..j] + d[j..]
  {
  }

  /**
    On arbitrary bytes the scan loses nothing: the payload is the bytes before the first start
    code followed by the units it saw, in order and without overlap, none of their NALs holds a
    start code or ends in zero, and the NALs reported are those of the units.
   */
  lemma {:induction false} ScanIsLossless(d: seq<byte>)
    requires HasCode(d)
    ensures var first := NextCode(d, 0);
      var us := UnitsFrom(d, first);
      && d == d[..first] + Join(us)
      && AllWellFormed(us)
      && Nals(d) == NalsOf(us)
  {
    var first := NextCode(d, 0);
    UnitsFromLossless(d, first);
    hide Join, UnitsFrom, NalsOf, NalsFrom, CodeLen, NextCode, AllWellFormed;
    assert d == d[..first] + d[first..];
  }

  // ---------- the loops ----------

  datatype Found = NotFound | At(pos: nat, len: nat)

  function Search(d: seq<byte>, start: nat): Found
    requires start <= |d|
  {
    var p := NextCode(d, start);
    if p == |d| then NotFound else At(p, CodeLen(d, p))
  }

  /** `find_start_code`: looks at every position that leaves room for three bytes. */
  method FindStartCode(d: seq<byte>, start: nat) returns (r: Found)
    requires start <= |d|
    ensures r == Search(d, start)
    ensures r.At? ==> start <= r.pos && r.pos + r.len <= |d|
  {
    var i := start;
    while i + 3 <= |d|
      invariant start <= i <= |d|
      invariant forall j :: start <= j < i ==> CodeLen(d, j) == 0
      decreases |d| - i
    {
      var n := CodeLen(d, i);
      if n > 0 {
        NextCodeUnique(d, start, i);
        return At(i, n);
      }
      i := i + 1;
    }
    NextCodeUnique(d, start, |d|);
    return NotFound;
  }

  method PayloadHasStartCode(d: seq<byte>) returns (has: bool)
    ensures has == HasCode(d)
    ensures has <==> exists i :: 0 <= i < |d| && CodeLen(d, i) > 0
  {
    var r := FindStartCode(d, 0);
    has := r.At?;
  }
}
