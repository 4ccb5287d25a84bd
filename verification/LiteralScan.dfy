/**
  Where literals begin and end, and what they stand for, by section 11.1.1 of the MySQL 8.4 Reference
  Manual: a backslash escapes the next character, and a quote inside a literal may be written twice.
  The parser of `BinaryLiterals` is compared with this.
 */
module LiteralScan {
  import opened Basics
  import opened LengthPrefixed
  import opened BinaryLiterals

  // ----- Where a literal ends -----

  /** The first quote that no backslash escapes, in a text that starts inside a literal. */
  function BareQuote(dangling: bool, s: Bytes): (r: Option<nat>)
    ensures r.Some? ==> r.value < |s| && s[r.value] == QUOTE
    decreases |s|
  {
    if s == [] then None
    else if !dangling && s[0] == QUOTE then Some(0)
    else Shift(1, BareQuote(!dangling && s[0] == ESCAPE, s[1..]))
  }

  /** The closing quote: the first bare one that is not one of two in a row. */
  function ScanClose(dangling: bool, s: Bytes): (r: Option<nat>)
    ensures r.Some? ==> r.value < |s| && s[r.value] == QUOTE && (r.value + 1 < |s| ==> s[r.value + 1] != QUOTE)
    decreases |s|
  {
    if s == [] then None
    else if !dangling && s[0] == QUOTE then
      if |s| > 1 && s[1] == QUOTE then Shift(2, ScanClose(false, s[2..])) else Some(0)
    else Shift(1, ScanClose(!dangling && s[0] == ESCAPE, s[1..]))
  }

  /** Whether an escape dangles after `s`. */
  function Dangles(dangling: bool, s: Bytes): bool
    decreases |s|
  {
    if s == [] then dangling else Dangles(!dangling && s[0] == ESCAPE, s[1..])
  }

  lemma {:induction false} DanglesIsUnescape(dangling: bool, s: Bytes)
    ensures Dangles(dangling, s) == Unescape(dangling, s).dangling
    decreases |s|
  {
    if s != [] {
      DanglesIsUnescape(!dangling && s[0] == ESCAPE, s[1..]);
    }
  }

  lemma ShiftTwice(m: nat, n: nat, k: Option<nat>)
    ensures Shift(m, Shift(n, k)) == Shift(m + n, k)
  {
  }

  lemma {:induction false} BareSkipsText(dangling: bool, s: Bytes, t: Bytes)
    requires NoQuote(s, 0, |s|)
    ensures BareQuote(dangling, s + t) == Shift(|s|, BareQuote(Dangles(dangling, s), t))
    decreases |s|
  {
    if s == [] {
      assert s + t == t;
    } else {
      var d := !dangling && s[0] == ESCAPE;
      assert (s + t)[1..] == s[1..] + t;
      assert (s + t)[0] == s[0] != QUOTE;
      BareSkipsText(d, s[1..], t);
      ShiftTwice(1, |s| - 1, BareQuote(Dangles(d, s[1..]), t));
    }
  }

  lemma BareSkips(dangling: bool, s: Bytes, n: nat)
    requires n <= |s| && NoQuote(s, 0, n)
    ensures BareQuote(dangling, s) == Shift(n, BareQuote(Unescape(dangling, s[..n]).dangling, s[n..]))
  {
    BareSkipsText(dangling, s[..n], s[n..]);
    assert s[..n] + s[n..] == s;
    DanglesIsUnescape(dangling, s[..n]);
  }

  lemma BareAtQuote(dangling: bool, s: Bytes, q: nat)
    requires FirstQuote(s) == Some(q)
    ensures BareQuote(dangling, s)
         == if Unescape(dangling, s[..q]).dangling then Shift(q + 1, BareQuote(false, s[q + 1..])) else Some(q)
  {
    BareSkips(dangling, s, q);
    assert s[q..][0] == QUOTE && s[q..][1..] == s[q + 1..];
  }

  lemma CloseAtQuote(dangling: bool, s: Bytes, q: nat)
    requires FirstQuote(s) == Some(q)
    ensures CloseAt(dangling, s)
         == if TakenAsEscaped(dangling, s, q) then Shift(q + 1, CloseAt(false, s[q + 1..])) else Some(q)
  {
    assert s[..q + 1] == s[..q] + [QUOTE];
    QuoteEndsEscape(dangling, s[..q]);
  }

  /** The first bare quote comes right after a backslash, which then is itself escaped. */
  predicate AfterBackslash(dangling: bool, s: Bytes) {
    var k := BareQuote(dangling, s);
    k.Some? && k.value > 0 && s[k.value - 1] == ESCAPE
  }

  /** The first bare quote is written twice. */
  predicate Doubled(dangling: bool, s: Bytes) {
    var k := BareQuote(dangling, s);
    k.Some? && k.value + 1 < |s| && s[k.value + 1] == QUOTE
  }

  lemma LikeItsTail(dangling: bool, s: Bytes, q: nat)
    requires q < |s| && s[q] == QUOTE && BareQuote(dangling, s) == Shift(q + 1, BareQuote(false, s[q + 1..]))
    ensures AfterBackslash(dangling, s) <==> AfterBackslash(false, s[q + 1..])
  {
  }

  lemma TailOfTail(s: Bytes, m: nat, n: nat)
    requires m + n <= |s|
    ensures s[m..][n..] == s[m + n..]
  {
  }

  lemma ShiftsAdd(a: Option<nat>, m: nat, b: Option<nat>, n: nat, c: Option<nat>)
    requires a == Shift(m, b) && b == Shift(n, c)
    ensures a == Shift(m + n, c)
  {
  }

  /** `rest` is where the parser stops in the text behind the quote at k. */
  ghost predicate StopsIn(rest: Option<nat>, s: Bytes, k: nat) {
    k < |s| && rest == CloseAt(false, s[k + 1..])
  }

  /** Stopping at `stop` means passing over the quote at k. */
  ghost predicate StopsPast(stop: Option<nat>, s: Bytes, k: nat) {
    exists rest: Option<nat> :: StopsIn(rest, s, k) && stop == Shift(k + 1, rest)
  }

  lemma StopsInTail(rest: Option<nat>, s: Bytes, q: nat, k: nat)
    requires q < |s| && StopsIn(rest, s[q + 1..], k)
    ensures StopsIn(rest, s, q + 1 + k)
  {
    TailOfTail(s, q + 1, k + 1);
  }

  lemma StopsPastBehind(stop: Option<nat>, tailStop: Option<nat>, s: Bytes, q: nat, k: nat)
    requires q < |s| && stop == Shift(q + 1, tailStop) && StopsPast(tailStop, s[q + 1..], k)
    ensures StopsPast(stop, s, q + 1 + k)
  {
    var rest: Option<nat> :| StopsIn(rest, s[q + 1..], k) && tailStop == Shift(k + 1, rest);
    StopsInTail(rest, s, q, k);
    ShiftsAdd(stop, q + 1, tailStop, k + 1, rest);
  }

  /** Where the parser stops: at the first bare quote, or, if a backslash precedes that, behind it. */
  ghost predicate StopsWell(dangling: bool, s: Bytes) {
    if AfterBackslash(dangling, s) then StopsPast(CloseAt(dangling, s), s, BareQuote(dangling, s).value)
    else CloseAt(dangling, s) == BareQuote(dangling, s)
  }

  /** The first quote is escaped. */
  lemma StopsBehindEscaped(dangling: bool, s: Bytes, q: nat)
    requires FirstQuote(s) == Some(q) && Unescape(dangling, s[..q]).dangling && StopsWell(false, s[q + 1..])
    ensures StopsWell(dangling, s)
  {
    BareAtQuote(dangling, s, q);
    EscapedIsTakenAsEscaped(dangling, s, q);
    CloseAtQuote(dangling, s, q);
    LikeItsTail(dangling, s, q);
    if AfterBackslash(dangling, s) {
      StopsPastBehind(CloseAt(dangling, s), CloseAt(false, s[q + 1..]), s, q, BareQuote(false, s[q + 1..]).value);
    }
  }

  /** The first quote is bare. */
  lemma StopsAtBare(dangling: bool, s: Bytes, q: nat)
    requires FirstQuote(s) == Some(q) && !Unescape(dangling, s[..q]).dangling
    ensures StopsWell(dangling, s)
  {
    BareAtQuote(dangling, s, q);
    CloseAtQuote(dangling, s, q);
    assert q == 0 ==> s[..q] == [];
    assert StopsIn(CloseAt(false, s[q + 1..]), s, q);
  }

  lemma {:induction false} StopsAtBareQuote(dangling: bool, s: Bytes)
    ensures StopsWell(dangling, s)
    decreases |s|
  {
    var f := FirstQuote(s);
    if f.None? {
      assert s[..|s|] == s;
      BareSkips(dangling, s, |s|);
    } else if Unescape(dangling, s[..f.value]).dangling {
      StopsAtBareQuote(false, s[f.value + 1..]);
      StopsBehindEscaped(dangling, s, f.value);
    } else {
      StopsAtBare(dangling, s, f.value);
    }
  }

  /** The literal ends at its first bare quote, unless that is doubled: then it ends behind both. */
  lemma {:induction false} EndsAtBareQuote(dangling: bool, s: Bytes)
    ensures !Doubled(dangling, s) ==> ScanClose(dangling, s) == BareQuote(dangling, s)
    ensures Doubled(dangling, s) ==>
              var k := BareQuote(dangling, s).value;
              ScanClose(dangling, s) == Shift(k + 2, ScanClose(false, s[k + 2..]))
    decreases |s|
  {
    if s != [] && (dangling || s[0] != QUOTE) {
      var d := !dangling && s[0] == ESCAPE;
      EndsAtBareQuote(d, s[1..]);
      if Doubled(d, s[1..]) {
        EndsBehindDoubled(s, BareQuote(d, s[1..]).value + 2, ScanClose(d, s[1..]));
      }
    }
  }

  lemma EndsBehindDoubled(s: Bytes, n: nat, end: Option<nat>)
    requires 1 + n <= |s| && end == Shift(n, ScanClose(false, s[1..][n..]))
    ensures Shift(1, end) == Shift(1 + n, ScanClose(false, s[1 + n..]))
  {
    TailOfTail(s, 1, n);
    ShiftTwice(1, n, ScanClose(false, s[1 + n..]));
  }

  /** A quote right at the start, with nothing dangling, is taken for the closing one. */
  lemma StopsAtOnce(s: Bytes)
    requires s != [] && s[0] == QUOTE
    ensures CloseAt(false, s) == Some(0)
  {
    assert FirstQuoteFrom(s, 0) == Some(0);
  }

  /**
    The parser picks the right closing quote exactly when the first bare quote neither follows a
    backslash nor is doubled.
   */
  lemma ClosesExactly(dangling: bool, s: Bytes)
    ensures CloseAt(dangling, s) == ScanClose(dangling, s) <==> !AfterBackslash(dangling, s) && !Doubled(dangling, s)
  {
    StopsAtBareQuote(dangling, s);
    EndsAtBareQuote(dangling, s);
    if AfterBackslash(dangling, s) && Doubled(dangling, s) {
      var k := BareQuote(dangling, s).value;
      StopsAtOnce(s[k + 1..]);
      assert StopsIn(Some(0), s, k);
    }
  }

  /** An escaped backslash before the closing quote: the parser runs past it, to the next quote. */
  lemma EscapedBackslashIsMisread()
    ensures var s: Bytes := [ESCAPE, ESCAPE, QUOTE, 44, QUOTE];
            ScanClose(false, s) == Some(2) && CloseAt(false, s) == Some(4)
  {
    var s: Bytes := [ESCAPE, ESCAPE, QUOTE, 44, QUOTE];
    var t: Bytes := [44, QUOTE];
    assert s[1..] == [ESCAPE, QUOTE, 44, QUOTE] && s[1..][1..] == [QUOTE, 44, QUOTE] && s[3..] == t;
    assert BareQuote(false, s[1..][1..]) == Some(0) && BareQuote(true, s[1..]) == Some(1) && BareQuote(false, s) == Some(2);
    assert t[1..] == [QUOTE] && BareQuote(false, t[1..]) == Some(0) && BareQuote(false, t) == Some(1);
    EndsAtBareQuote(false, s);
    StopsAtBareQuote(false, s);
    StopsAtBareQuote(false, t);
  }

  /** A doubled quote is taken for the end of the literal. */
  lemma DoubledQuoteEndsTooEarly()
    ensures var s: Bytes := [QUOTE, QUOTE, 98, QUOTE];
            ScanClose(false, s) == Some(3) && CloseAt(false, s) == Some(0)
  {
    var s: Bytes := [QUOTE, QUOTE, 98, QUOTE];
    assert s[2..] == [98, QUOTE] && s[2..][1..] == [QUOTE];
    assert ScanClose(false, s[2..][1..]) == Some(0) && ScanClose(false, s[2..]) == Some(1);
    StopsAtOnce(s);
  }

  // ----- Where a literal begins -----

  /** Outside any literal, inside the one opened at `at`, or just behind a bare quote inside that one. */
  datatype Scan = Outside | Inside(at: nat, dangling: bool) | Closing(at: nat)

  /** One byte, at position `pos`. A second quote in a row leads back inside; anything else confirms the end. */
  function Next(st: Scan, pos: nat, b: Byte): Scan {
    match st
    case Outside => if b == QUOTE then Inside(pos, false) else Outside
    case Closing(at) => if b == QUOTE then Inside(at, false) else Outside
    case Inside(at, dangling) =>
      if !dangling && b == QUOTE then Closing(at) else Inside(at, !dangling && b == ESCAPE)
  }

  /** The state after a text whose first byte is at position `base`. */
  function ScanOn(st: Scan, base: nat, s: Bytes): Scan {
    if s == [] then st else Next(ScanOn(st, base, s[..|s| - 1]), base + |s| - 1, s[|s| - 1])
  }

  /** What is open at the end of a text that starts outside any literal. */
  function ScanText(s: Bytes): Scan {
    ScanOn(Outside, 0, s)
  }

  lemma ScanByte(st: Scan, base: nat, s: Bytes, b: Byte)
    ensures ScanOn(st, base, s + [b]) == Next(ScanOn(st, base, s), base + |s|, b)
  {
    assert (s + [b])[..|s + [b]| - 1] == s;
  }

  lemma {:induction false} ScanPieces(st: Scan, base: nat, s: Bytes, t: Bytes)
    ensures ScanOn(st, base, s + t) == ScanOn(ScanOn(st, base, s), base + |s|, t)
    decreases |t|
  {
    if t == [] {
      assert s + t == s;
    } else {
      var n := |t| - 1;
      assert (s + t)[..|s + t| - 1] == s + t[..n];
      ScanPieces(st, base, s, t[..n]);
    }
  }

  lemma ClosingAtQuote(s: Bytes)
    requires ScanText(s).Closing?
    ensures s != [] && s[|s| - 1] == QUOTE
  {
  }

  lemma {:induction false} OpenedAtQuote(s: Bytes)
    ensures ScanText(s).Inside? || ScanText(s).Closing? ==> ScanText(s).at < |s| && s[ScanText(s).at] == QUOTE
  {
    if s != [] {
      OpenedAtQuote(s[..|s| - 1]);
    }
  }

  /** Outside a literal, before invalid bytes, the parser replaces the text from position q on by a placeholder. */
  predicate OpensAt(p: Parser, valid: Bytes, invalid: Bytes, q: nat)
    requires q <= |valid|
  {
    Start(p, valid, invalid).Ok? && Start(p, valid, invalid).value.res == p.res + valid[..q] + [MARK]
  }

  /** The parser opens the literal that is open, or refuses bytes outside any literal. */
  predicate StartsRight(p: Parser, valid: Bytes, invalid: Bytes) {
    match ScanText(valid)
    case Inside(at, _) => at <= |valid| && OpensAt(p, valid, invalid, at)
    case _ => Start(p, valid, invalid).Err?
  }

  lemma LastQuoteIs(s: Bytes, q: nat)
    requires q < |s| && s[q] == QUOTE
    ensures LastQuote(s) == Some(q) <==> NoQuote(s, q + 1, |s|)
  {
  }

  lemma OpensAtLastQuote(p: Parser, valid: Bytes, invalid: Bytes, q: nat)
    requires invalid != [] && q < |valid|
    ensures OpensAt(p, valid, invalid, q) <==> LastQuote(valid) == Some(q)
  {
    var last := LastQuote(valid);
    if last.Some? {
      assert |p.res + valid[..last.value] + [MARK]| == |p.res| + last.value + 1;
      assert |p.res + valid[..q] + [MARK]| == |p.res| + q + 1;
    }
  }

  /** No quote follows the one that opens the literal; outside any literal, there is no quote at all. */
  predicate NoLaterQuote(valid: Bytes) {
    match ScanText(valid)
    case Inside(at, _) => at < |valid| && NoQuote(valid, at + 1, |valid|)
    case _ => NoQuote(valid, 0, |valid|)
  }

  /** Before invalid bytes the parser starts right exactly when no quote, escaped or doubled, follows the opening one. */
  lemma StartsRightExactly(p: Parser, valid: Bytes, invalid: Bytes)
    requires invalid != []
    ensures StartsRight(p, valid, invalid) <==> NoLaterQuote(valid)
  {
    OpenedAtQuote(valid);
    var r := ScanText(valid);
    if r.Inside? {
      OpensAtLastQuote(p, valid, invalid, r.at);
      LastQuoteIs(valid, r.at);
    }
  }

  lemma ScanOfEscaped(a: Bytes)
    requires ScanText(a) == Inside(0, false)
    ensures ScanText(a + [ESCAPE] + [QUOTE] + [98]) == Inside(0, false)
  {
    ScanByte(Outside, 0, a, ESCAPE);
    ScanByte(Outside, 0, a + [ESCAPE], QUOTE);
    ScanByte(Outside, 0, a + [ESCAPE] + [QUOTE], 98);
  }

  lemma ScanOfDoubled(a: Bytes)
    requires ScanText(a) == Inside(0, false)
    ensures ScanText(a + [QUOTE] + [QUOTE] + [115] + [32]) == Inside(0, false)
  {
    ScanByte(Outside, 0, a, QUOTE);
    ScanByte(Outside, 0, a + [QUOTE], QUOTE);
    ScanByte(Outside, 0, a + [QUOTE] + [QUOTE], 115);
    ScanByte(Outside, 0, a + [QUOTE] + [QUOTE] + [115], 32);
  }

  lemma ScanOfStart(b: Byte)
    requires b != QUOTE && b != ESCAPE
    ensures ScanText([QUOTE] + [b]) == Inside(0, false)
  {
    ScanByte(Outside, 0, [], QUOTE);
    assert [] + [QUOTE] == [QUOTE];
    ScanByte(Outside, 0, [QUOTE], b);
  }

  /** A literal with an escaped quote before its invalid bytes is opened at that quote. */
  lemma EscapedQuoteIsTakenForTheStart(p: Parser)
    ensures var valid: Bytes := [QUOTE, 97, ESCAPE, QUOTE, 98];
            && ScanText(valid) == Inside(0, false) && !StartsRight(p, valid, [255])
            && Start(p, valid, [255]).Ok? && Start(p, valid, [255]).value.res == p.res + [QUOTE, 97, ESCAPE] + [MARK]
  {
    var valid: Bytes := [QUOTE, 97, ESCAPE, QUOTE, 98];
    ScanOfStart(97);
    ScanOfEscaped([QUOTE] + [97]);
    assert [QUOTE] + [97] + [ESCAPE] + [QUOTE] + [98] == valid;
    assert NoQuote(valid, 4, 5) && valid[3] == QUOTE;
    LastQuoteIs(valid, 3);
    assert valid[..3] == [QUOTE, 97, ESCAPE];
    StartsRightExactly(p, valid, [255]);
  }

  /** A literal with a doubled quote before its invalid bytes is opened at the second of the two. */
  lemma DoubledQuoteIsTakenForTheStart(p: Parser)
    ensures var valid: Bytes := [QUOTE, 105, 116, QUOTE, QUOTE, 115, 32];
            && ScanText(valid) == Inside(0, false) && !StartsRight(p, valid, [255])
            && Start(p, valid, [255]).Ok? && Start(p, valid, [255]).value.res == p.res + [QUOTE, 105, 116, QUOTE] + [MARK]
  {
    var valid: Bytes := [QUOTE, 105, 116, QUOTE, QUOTE, 115, 32];
    ScanOfStart(105);
    ScanByte(Outside, 0, [QUOTE] + [105], 116);
    ScanOfDoubled([QUOTE] + [105] + [116]);
    assert [QUOTE] + [105] + [116] + [QUOTE] + [QUOTE] + [115] + [32] == valid;
    assert NoQuote(valid, 5, 7) && valid[4] == QUOTE;
    LastQuoteIs(valid, 4);
    assert valid[..4] == [QUOTE, 105, 116, QUOTE];
    StartsRightExactly(p, valid, [255]);
  }

  // ----- From inside a literal -----

  lemma {:induction false} DanglesAppend(dangling: bool, s: Bytes, b: Byte)
    ensures Dangles(dangling, s + [b]) == (!Dangles(dangling, s) && b == ESCAPE)
    decreases |s|
  {
    if s == [] {
      assert s + [b] == [b] && [b][1..] == [];
    } else {
      assert (s + [b])[1..] == s[1..] + [b];
      DanglesAppend(!dangling && s[0] == ESCAPE, s[1..], b);
    }
  }

  /** The closing quote of a text one byte longer. */
  function CloseNext(k: Option<nat>, dangling: bool, n: nat, b: Byte): Option<nat> {
    if k.None? then if !dangling && b == QUOTE then Some(n) else None
    else if k.value + 1 == n && b == QUOTE then None
    else k
  }

  lemma CloseNextBehind(m: nat, k: Option<nat>, dangling: bool, n: nat, b: Byte)
    ensures Shift(m, CloseNext(k, dangling, n, b)) == CloseNext(Shift(m, k), dangling, m + n, b)
  {
  }

  lemma ScanDoubled(s: Bytes)
    requires |s| > 1 && s[0] == QUOTE && s[1] == QUOTE
    ensures ScanClose(false, s) == Shift(2, ScanClose(false, s[2..])) && Dangles(false, s) == Dangles(false, s[2..])
  {
    assert s[1..][0] == QUOTE && s[1..][1..] == s[2..];
  }

  lemma ScanSingle(s: Bytes)
    requires s != [] && s[0] == QUOTE && (|s| > 1 ==> s[1] != QUOTE)
    ensures ScanClose(false, s) == Some(0)
  {
  }

  /** The text starts with a bare quote. */
  lemma CloseAppendQuote(s: Bytes, b: Byte)
    requires s != [] && s[0] == QUOTE
    requires |s| > 1 && s[1] == QUOTE ==>
               ScanClose(false, s[2..] + [b]) == CloseNext(ScanClose(false, s[2..]), Dangles(false, s[2..]), |s| - 2, b)
    ensures ScanClose(false, s + [b]) == CloseNext(ScanClose(false, s), Dangles(false, s), |s|, b)
  {
    var t := s + [b];
    assert t[0] == QUOTE && t[1] == if |s| > 1 then s[1] else b;
    if |s| > 1 && s[1] == QUOTE {
      ScanDoubled(s);
      ScanDoubled(t);
      assert t[2..] == s[2..] + [b];
      CloseNextBehind(2, ScanClose(false, s[2..]), Dangles(false, s[2..]), |s| - 2, b);
    } else {
      ScanSingle(s);
      if t[1] == QUOTE {
        ScanDoubled(t);
        assert t[2..] == [];
      } else {
        ScanSingle(t);
      }
    }
  }

  lemma {:induction false} CloseAppend(dangling: bool, s: Bytes, b: Byte)
    ensures ScanClose(dangling, s + [b]) == CloseNext(ScanClose(dangling, s), Dangles(dangling, s), |s|, b)
    decreases |s|
  {
    if s == [] {
      assert s + [b] == [b] && [b][1..] == [];
    } else if dangling || s[0] != QUOTE {
      var d := !dangling && s[0] == ESCAPE;
      assert (s + [b])[1..] == s[1..] + [b];
      CloseAppend(d, s[1..], b);
      CloseNextBehind(1, ScanClose(d, s[1..]), Dangles(d, s[1..]), |s| - 1, b);
    } else {
      if |s| > 1 { CloseAppend(false, s[2..], b); }
      CloseAppendQuote(s, b);
    }
  }

  /**
    From inside a literal the scanner stays inside as long as nothing closes it, and the closing
    quote, if the text ends with it, leaves it in doubt.
   */
  lemma {:induction false} ScanFromInside(at: nat, dangling: bool, base: nat, s: Bytes)
    ensures var k := ScanClose(dangling, s);
            if k.None? then ScanOn(Inside(at, dangling), base, s) == Inside(at, Dangles(dangling, s))
            else if k.value + 1 == |s| then ScanOn(Inside(at, dangling), base, s) == Closing(at)
            else true
    decreases |s|
  {
    if s != [] {
      var n := |s| - 1;
      assert s == s[..n] + [s[n]];
      ScanFromInside(at, dangling, base, s[..n]);
      CloseAppend(dangling, s[..n], s[n]);
      DanglesAppend(dangling, s[..n], s[n]);
      var k := ScanClose(dangling, s[..n]);
      if k.Some? && k.value + 1 == n && s[n] == QUOTE { QuoteDoesNotDangle(dangling, s); }
    }
  }

  lemma QuoteDoesNotDangle(dangling: bool, s: Bytes)
    requires s != [] && s[|s| - 1] == QUOTE
    ensures !Dangles(dangling, s)
  {
    var n := |s| - 1;
    assert s == s[..n] + [QUOTE];
    DanglesAppend(dangling, s[..n], QUOTE);
  }

  /** `t` is what has been read of the literal that is open, or in doubt, in the state. */
  ghost predicate TailFits(st: Scan, t: Bytes) {
    match st
    case Outside => true
    case Inside(_, dangling) => ScanClose(false, t).None? && Dangles(false, t) == dangling
    case Closing(_) => t != [] && ScanClose(false, t) == Some(|t| - 1)
  }

  lemma TailStep(st: Scan, t: Bytes, pos: nat, b: Byte)
    requires !st.Outside? && TailFits(st, t)
    ensures TailFits(Next(st, pos, b), t + [b])
  {
    CloseAppend(false, t, b);
    DanglesAppend(false, t, b);
  }

  /** The literal that is open is one that nothing closes: every later quote in it is escaped or doubled. */
  lemma {:induction false} OpenIsNotClosed(s: Bytes)
    ensures !ScanText(s).Outside? ==> ScanText(s).at < |s| && TailFits(ScanText(s), s[ScanText(s).at + 1..])
  {
    if s != [] {
      var n := |s| - 1;
      var before := ScanText(s[..n]);
      OpenIsNotClosed(s[..n]);
      if before.Outside? {
        assert s[n + 1..] == [];
      } else {
        var t := s[..n][before.at + 1..];
        assert s[before.at + 1..] == t + [s[n]];
        TailStep(before, t, n, s[n]);
      }
    }
  }

  // ----- What a literal stands for -----

  const PERCENT: Byte := 37
  const UNDERSCORE: Byte := 95

  /** The characters whose escape stands for something else, with what it stands for. */
  const SPECIAL: map<Byte, Byte> := map[
    48 := 0,   // 0, the NUL byte
    98 := 8,   // b, backspace
    110 := 10, // n, newline
    114 := 13, // r, carriage return
    116 := 9,  // t, tab
    90 := 26   // Z, control-Z
  ]

  /** What an escaped character stands for: anything that is not special stands for itself. */
  function Escaped(b: Byte): Byte {
    if b in SPECIAL then SPECIAL[b] else b
  }

  lemma EscapesAgree(b: Byte)
    ensures ReplaceEscaped(b) == Escaped(b)
  {
  }

  /** The value of a raw literal: an escaped wildcard keeps its backslash, a doubled quote is one quote. */
  function Manual(dangling: bool, s: Bytes): Bytes
    decreases |s|
  {
    if s == [] then []
    else if dangling then
      (if s[0] == PERCENT || s[0] == UNDERSCORE then [ESCAPE, s[0]] else [Escaped(s[0])]) + Manual(false, s[1..])
    else if s[0] == ESCAPE then Manual(true, s[1..])
    else if s[0] == QUOTE && |s| > 1 && s[1] == QUOTE then [QUOTE] + Manual(false, s[2..])
    else [s[0]] + Manual(false, s[1..])
  }

  /** No wildcard is escaped and no quote is doubled. */
  predicate Ordinary(dangling: bool, s: Bytes)
    decreases |s|
  {
    s == [] ||
    if dangling then s[0] != PERCENT && s[0] != UNDERSCORE && Ordinary(false, s[1..])
    else if s[0] == ESCAPE then Ordinary(true, s[1..])
    else !(s[0] == QUOTE && |s| > 1 && s[1] == QUOTE) && Ordinary(false, s[1..])
  }

  function Quotes(k: nat): Bytes {
    seq(k, _ => QUOTE)
  }

  lemma QuotesMove(k: nat, t: Bytes)
    ensures Quotes(k) + ([QUOTE] + t) == [QUOTE] + (Quotes(k) + t) == Quotes(k + 1) + t
  {
  }

  lemma SameHead(b: Byte, s: Bytes, t: Bytes)
    ensures [b] + s == [b] + t <==> s == t
  {
    assert ([b] + s)[1..] == s && ([b] + t)[1..] == t;
  }

  /** Quotes left over from doubled ones are never made up for. */
  lemma {:induction false} NeverCatchesUp(k: nat, dangling: bool, s: Bytes)
    requires k >= 1
    ensures Quotes(k) + Unescape(dangling, s).bytes != Manual(dangling, s)
    decreases |s|
  {
    var u, m := Unescape(dangling, s).bytes, Manual(dangling, s);
    assert (Quotes(k) + u)[0] == QUOTE;
    if s != [] { EscapesAgree(s[0]); }
    if s == [] {
    } else if !dangling && s[0] == ESCAPE {
      NeverCatchesUp(k, true, s[1..]);
    } else if !dangling && s[0] == QUOTE && |s| > 1 && s[1] == QUOTE {
      assert s[1..][0] == QUOTE && s[1..][1..] == s[2..];
      var v := Unescape(false, s[2..]).bytes;
      assert Unescape(false, s[1..]).bytes == [QUOTE] + v;
      assert u == [QUOTE] + ([QUOTE] + v);
      QuotesMove(k, [QUOTE] + v);
      QuotesMove(k, v);
      NeverCatchesUp(k + 1, false, s[2..]);
      SameHead(QUOTE, Quotes(k + 1) + v, Manual(false, s[2..]));
    } else if s[0] == QUOTE {
      var v := Unescape(false, s[1..]).bytes;
      assert u == [QUOTE] + v;
      QuotesMove(k, v);
      NeverCatchesUp(k, false, s[1..]);
      SameHead(QUOTE, Quotes(k) + v, Manual(false, s[1..]));
    } else {
      assert m[0] != QUOTE;
    }
  }

  /** A parameter is the value of its raw literal exactly when that has no escaped wildcard and no doubled quote. */
  lemma {:induction false} ParameterIsValueExactly(dangling: bool, raw: Bytes)
    ensures Unescape(dangling, raw).bytes == Manual(dangling, raw) <==> Ordinary(dangling, raw)
    decreases |raw|
  {
    if raw != [] { EscapesAgree(raw[0]); }
    if raw == [] {
    } else if !dangling && raw[0] == ESCAPE {
      ParameterIsValueExactly(true, raw[1..]);
    } else if !dangling && raw[0] == QUOTE && |raw| > 1 && raw[1] == QUOTE {
      assert raw[1..][0] == QUOTE && raw[1..][1..] == raw[2..];
      var v := Unescape(false, raw[2..]).bytes;
      NeverCatchesUp(1, false, raw[2..]);
      assert Quotes(1) == [QUOTE];
      SameHead(QUOTE, [QUOTE] + v, Manual(false, raw[2..]));
    } else if dangling && (raw[0] == PERCENT || raw[0] == UNDERSCORE) {
      assert Unescape(dangling, raw).bytes[0] != Manual(dangling, raw)[0];
    } else {
      ParameterIsValueExactly(false, raw[1..]);
      var b := if dangling then ReplaceEscaped(raw[0]) else raw[0];
      SameHead(b, Unescape(false, raw[1..]).bytes, Manual(false, raw[1..]));
    }
  }
}
