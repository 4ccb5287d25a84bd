/**
  Which literals are extracted from a whole query: the positions of their opening and closing quotes,
  as the parser chooses them chunk by chunk and as a scan of the whole query has them.
 */
module LiteralTrace {
  import opened Basics
  import opened LengthPrefixed
  import opened BinaryLiterals
  import opened LiteralScan

  /** Only the last chunk can lack invalid bytes, and these are no ASCII characters. */
  predicate Utf8Cut(chunks: seq<Chunk>) {
    WellCut(chunks) && forall i | 0 <= i < |chunks| :: NoAscii(chunks[i].invalid)
  }

  predicate NoAscii(s: Bytes) {
    forall i | 0 <= i < |s| :: s[i] >= 128
  }

  // ----- Choosing quotes -----

  datatype Reader = TheParser | TheScanner

  function ClosesAt(r: Reader, valid: Bytes): (k: Option<nat>)
    ensures k.Some? ==> k.value < |valid|
  {
    if r.TheParser? then CloseAt(false, valid) else ScanClose(false, valid)
  }

  function OpensAtQuote(r: Reader, valid: Bytes): (k: Option<nat>)
    ensures k.Some? ==> k.value < |valid|
  {
    if r.TheParser? then LastQuote(valid)
    else
      OpenedAtQuote(valid);
      match ScanText(valid)
      case Inside(at, _) => Some(at)
      case _ => None
  }

  /** Outside a literal, with the text at position `base`. */
  function OpenEvents(r: Reader, events: seq<nat>, base: nat, valid: Bytes, invalid: Bytes): Result<seq<nat>> {
    if invalid == [] then Ok(events)
    else
      match OpensAtQuote(r, valid)
      case None => Err("failed to locate binary string start")
      case Some(q) => Ok(events + [base + q])
  }

  /** An odd number of events means inside a literal. */
  function StepEvents(r: Reader, events: seq<nat>, base: nat, c: Chunk): Result<seq<nat>> {
    if |events| % 2 == 0 then OpenEvents(r, events, base, c.valid, c.invalid)
    else CloseEvents(r, events, base, c, ClosesAt(r, c.valid))
  }

  /** Inside a literal that ends at k in this chunk, or not at all. */
  function CloseEvents(r: Reader, events: seq<nat>, base: nat, c: Chunk, k: Option<nat>): Result<seq<nat>>
    requires k.Some? ==> k.value < |c.valid|
  {
    match k
    case None => Ok(events)
    case Some(k) => OpenEvents(r, events + [base + k], base + k + 1, c.valid[k + 1..], c.invalid)
  }

  /** The quotes that open and close the extracted literals, in order. */
  function Events(r: Reader, chunks: seq<Chunk>): Result<seq<nat>> {
    if chunks == [] then Ok([])
    else
      var init := chunks[..|chunks| - 1];
      var events :- Events(r, init);
      StepEvents(r, events, |BytesOf(init)|, chunks[|chunks| - 1])
  }

  // ----- The conditions met on the way -----

  predicate OpensWell(valid: Bytes, invalid: Bytes) {
    invalid == [] || NoLaterQuote(valid)
  }

  predicate Meets(events: seq<nat>, c: Chunk) {
    if |events| % 2 == 0 then OpensWell(c.valid, c.invalid)
    else
      var k := ClosesAt(TheParser, c.valid);
      && !AfterBackslash(false, c.valid) && !Doubled(false, c.valid)
      && (k.Some? ==> OpensWell(c.valid[k.value + 1..], c.invalid))
  }

  predicate MeetsAll(chunks: seq<Chunk>) {
    chunks == [] ||
    var init := chunks[..|chunks| - 1];
    MeetsAll(init) && (Events(TheParser, init).Ok? ==> Meets(Events(TheParser, init).value, chunks[|chunks| - 1]))
  }

  lemma OpensAlike(valid: Bytes)
    ensures OpensAtQuote(TheParser, valid) == OpensAtQuote(TheScanner, valid) <==> NoLaterQuote(valid)
  {
    OpenedAtQuote(valid);
    var st := ScanText(valid);
    if st.Inside? {
      LastQuoteIs(valid, st.at);
    }
  }

  lemma OpenEventsAlike(events: seq<nat>, base: nat, valid: Bytes, invalid: Bytes)
    requires OpenEvents(TheParser, events, base, valid, invalid).Ok?
    ensures OpenEvents(TheParser, events, base, valid, invalid) == OpenEvents(TheScanner, events, base, valid, invalid)
            <==> OpensWell(valid, invalid)
  {
    OpensAlike(valid);
    var p, q := OpensAtQuote(TheParser, valid), OpensAtQuote(TheScanner, valid);
    if invalid != [] && q.Some? {
      assert (events + [base + p.value])[|events|] == base + p.value;
      assert (events + [base + q.value])[|events|] == base + q.value;
    }
  }

  /** Events are only added, at positions in the text. */
  lemma OpenEventsGrow(r: Reader, events: seq<nat>, base: nat, valid: Bytes, invalid: Bytes)
    requires OpenEvents(r, events, base, valid, invalid).Ok?
    ensures var after := OpenEvents(r, events, base, valid, invalid).value;
            events <= after && forall i | |events| <= i < |after| :: base <= after[i] < base + |valid|
  {
  }

  lemma StepGrows(r: Reader, events: seq<nat>, base: nat, c: Chunk)
    requires StepEvents(r, events, base, c).Ok?
    ensures var after := StepEvents(r, events, base, c).value;
            events <= after && forall i | |events| <= i < |after| :: base <= after[i] < base + |c.valid|
  {
    if |events| % 2 == 0 {
      OpenEventsGrow(r, events, base, c.valid, c.invalid);
    } else {
      var k := ClosesAt(r, c.valid);
      if k.Some? {
        OpenEventsGrow(r, events + [base + k.value], base + k.value + 1, c.valid[k.value + 1..], c.invalid);
      }
    }
  }

  /** Inside a literal, the first event added, if any, is its closing quote. */
  lemma FirstEvent(r: Reader, events: seq<nat>, base: nat, c: Chunk, k: Option<nat>)
    requires (k.Some? ==> k.value < |c.valid|) && CloseEvents(r, events, base, c, k).Ok?
    ensures var after := CloseEvents(r, events, base, c, k).value;
            if k.None? then after == events else |after| > |events| && after[|events|] == base + k.value
  {
    if k.Some? {
      OpenEventsGrow(r, events + [base + k.value], base + k.value + 1, c.valid[k.value + 1..], c.invalid);
    }
  }

  /** Events agree exactly when the closing quotes do and then the opening ones. */
  lemma CloseEventsAlike(events: seq<nat>, base: nat, c: Chunk, k: Option<nat>, l: Option<nat>)
    requires (k.Some? ==> k.value < |c.valid|) && (l.Some? ==> l.value < |c.valid|)
    requires CloseEvents(TheParser, events, base, c, k).Ok?
    ensures CloseEvents(TheParser, events, base, c, k) == CloseEvents(TheScanner, events, base, c, l)
            <==> k == l && (k.Some? ==> OpensWell(c.valid[k.value + 1..], c.invalid))
  {
    if k == l {
      if k.Some? {
        OpenEventsAlike(events + [base + k.value], base + k.value + 1, c.valid[k.value + 1..], c.invalid);
      }
    } else {
      FirstEvent(TheParser, events, base, c, k);
      if CloseEvents(TheScanner, events, base, c, l).Ok? {
        FirstEvent(TheScanner, events, base, c, l);
      }
    }
  }

  lemma StepAlike(events: seq<nat>, base: nat, c: Chunk)
    requires StepEvents(TheParser, events, base, c).Ok?
    ensures StepEvents(TheParser, events, base, c) == StepEvents(TheScanner, events, base, c) <==> Meets(events, c)
  {
    if |events| % 2 == 0 {
      OpenEventsAlike(events, base, c.valid, c.invalid);
    } else {
      ClosesExactly(false, c.valid);
      CloseEventsAlike(events, base, c, ClosesAt(TheParser, c.valid), ClosesAt(TheScanner, c.valid));
    }
  }

  lemma {:induction false} EventsAreInside(r: Reader, chunks: seq<Chunk>)
    requires Events(r, chunks).Ok?
    ensures forall i | 0 <= i < |Events(r, chunks).value| :: Events(r, chunks).value[i] < |BytesOf(chunks)|
  {
    if chunks != [] {
      var init, c := chunks[..|chunks| - 1], chunks[|chunks| - 1];
      EventsAreInside(r, init);
      StepGrows(r, Events(r, init).value, |BytesOf(init)|, c);
    }
  }

  /** Events of different readers that end up equal were equal all along. */
  lemma EqualBefore(chunks: seq<Chunk>)
    requires chunks != [] && Events(TheParser, chunks).Ok? && Events(TheScanner, chunks) == Events(TheParser, chunks)
    ensures Events(TheScanner, chunks[..|chunks| - 1]) == Events(TheParser, chunks[..|chunks| - 1])
  {
    var init, c := chunks[..|chunks| - 1], chunks[|chunks| - 1];
    var a, b, base := Events(TheParser, init).value, Events(TheScanner, init).value, |BytesOf(init)|;
    EventsAreInside(TheParser, init);
    EventsAreInside(TheScanner, init);
    StepGrows(TheParser, a, base, c);
    StepGrows(TheScanner, b, base, c);
    PrefixesOfOne(a, b, Events(TheParser, chunks).value, base);
  }

  lemma PrefixesOfOne(a: seq<nat>, b: seq<nat>, all: seq<nat>, base: nat)
    requires a <= all && b <= all
    requires (forall i | 0 <= i < |a| :: a[i] < base) && (forall i | 0 <= i < |b| :: b[i] < base)
    requires (forall i | |a| <= i < |all| :: base <= all[i]) && (forall i | |b| <= i < |all| :: base <= all[i])
    ensures a == b
  {
    LengthOfPrefix(a, all, base);
    LengthOfPrefix(b, all, base);
  }

  /** How many numbers come before the first that is not below `base`. */
  function CountBelow(s: seq<nat>, base: nat): nat {
    if s == [] || s[0] >= base then 0 else 1 + CountBelow(s[1..], base)
  }

  lemma {:induction false} LengthOfPrefix(a: seq<nat>, all: seq<nat>, base: nat)
    requires a <= all && (forall i | 0 <= i < |a| :: a[i] < base) && (forall i | |a| <= i < |all| :: base <= all[i])
    ensures CountBelow(all, base) == |a|
    decreases |a|
  {
    if a != [] {
      assert all[0] == a[0] < base;
      LengthOfPrefix(a[1..], all[1..], base);
    }
  }

  /**
    If the parser gets through, it extracts the literals that the scanner does exactly when every
    opening and every closing on the way meets its condition.
   */
  lemma {:induction false} ExtractsRightLiteralsExactly(chunks: seq<Chunk>)
    requires Events(TheParser, chunks).Ok?
    ensures Events(TheScanner, chunks) == Events(TheParser, chunks) <==> MeetsAll(chunks)
  {
    if chunks != [] {
      var init, c := chunks[..|chunks| - 1], chunks[|chunks| - 1];
      ExtractsRightLiteralsExactly(init);
      StepAlike(Events(TheParser, init).value, |BytesOf(init)|, c);
      if Events(TheScanner, chunks) == Events(TheParser, chunks) {
        EqualBefore(chunks);
      }
    }
  }

  // ----- The events are those of the parser -----

  ghost predicate IsSlice(bytes: Bytes, a: nat, b: nat, param: Bytes) {
    a < b <= |bytes| && Unescape(false, bytes[a + 1..b]) == Unescaped(param, false)
  }

  /** Parameters are the unescaped texts between the quotes at the events, and an open literal starts at the last one. */
  ghost predicate Extracted(p: Parser, events: seq<nat>, bytes: Bytes) {
    && |p.params| == |events| / 2
    && (forall i | 0 <= i < |p.params| :: IsSlice(bytes, events[2 * i], events[2 * i + 1], p.params[i]))
    && (p.current.Some? <==> |events| % 2 == 1)
    && (p.current.Some? ==>
          events[|events| - 1] < |bytes| && p.current.value == Unescape(false, bytes[events[|events| - 1] + 1..]))
  }

  /** Both fail, or both succeed and fit together. */
  ghost predicate BothExtract(p: Result<Parser>, events: Result<seq<nat>>, bytes: Bytes) {
    (p.Ok? <==> events.Ok?) && (p.Ok? ==> Extracted(p.value, events.value, bytes))
  }

  lemma SlicesStay(bytes: Bytes, more: Bytes, a: nat, b: nat, param: Bytes)
    requires IsSlice(bytes, a, b, param)
    ensures IsSlice(bytes + more, a, b, param)
  {
    assert (bytes + more)[a + 1..b] == bytes[a + 1..b];
  }

  lemma AllSlicesStay(p: Parser, events: seq<nat>, bytes: Bytes, more: Bytes)
    requires Extracted(p, events, bytes)
    ensures forall i | 0 <= i < |p.params| :: IsSlice(bytes + more, events[2 * i], events[2 * i + 1], p.params[i])
  {
    forall i | 0 <= i < |p.params|
      ensures IsSlice(bytes + more, events[2 * i], events[2 * i + 1], p.params[i])
    {
      SlicesStay(bytes, more, events[2 * i], events[2 * i + 1], p.params[i]);
    }
  }

  lemma StartExtracts(p: Parser, events: seq<nat>, bytes: Bytes, valid: Bytes, invalid: Bytes)
    requires Extracted(p, events, bytes) && p.current.None?
    ensures BothExtract(Start(p, valid, invalid), OpenEvents(TheParser, events, |bytes|, valid, invalid), bytes + (valid + invalid))
  {
    AllSlicesStay(p, events, bytes, valid + invalid);
    var q := LastQuote(valid);
    if invalid != [] && q.Some? {
      var rest := valid[q.value + 1..];
      ExtendPieces(Unescaped([], false), rest, invalid);
      assert (bytes + (valid + invalid))[|bytes| + q.value + 1..] == rest + invalid;
      assert Unescape(false, rest + invalid) == Extend(Unescaped([], false), rest + invalid);
    }
  }

  lemma EndExtracts(p: Parser, events: seq<nat>, bytes: Bytes, head: Bytes)
    requires Extracted(p, events, bytes) && p.current.Some? && !Extend(p.current.value, head).dangling
    ensures Extracted(Parser(p.res, p.params + [Extend(p.current.value, head).bytes], None), events + [|bytes| + |head|],
                      bytes + (head + [QUOTE]))
  {
    var at, all := events[|events| - 1], bytes + (head + [QUOTE]);
    AllSlicesStay(p, events, bytes, head + [QUOTE]);
    assert all[at + 1..|bytes| + |head|] == bytes[at + 1..] + head;
    UnescapePieces(false, bytes[at + 1..], head);
    assert IsSlice(all, at, |bytes| + |head|, Extend(p.current.value, head).bytes);
  }

  lemma ReadExtracts(p: Parser, events: seq<nat>, bytes: Bytes, s: Bytes)
    requires Extracted(p, events, bytes) && p.current.Some?
    ensures Extracted(p.(current := Some(Extend(p.current.value, s))), events, bytes + s)
  {
    var at := events[|events| - 1];
    AllSlicesStay(p, events, bytes, s);
    assert (bytes + s)[at + 1..] == bytes[at + 1..] + s;
    UnescapePieces(false, bytes[at + 1..], s);
  }

  /** The literal being read ends with `head` and a quote. */
  lemma EndThenStart(p: Parser, events: seq<nat>, bytes: Bytes, head: Bytes, tail: Bytes, invalid: Bytes)
    requires Extracted(p, events, bytes) && p.current.Some? && !Extend(p.current.value, head).dangling
    ensures BothExtract(Start(Parser(p.res, p.params + [Extend(p.current.value, head).bytes], None), tail, invalid),
                        OpenEvents(TheParser, events + [|bytes| + |head|], |bytes| + |head| + 1, tail, invalid),
                        (bytes + (head + [QUOTE])) + (tail + invalid))
  {
    EndExtracts(p, events, bytes, head);
    var read := bytes + (head + [QUOTE]);
    assert |read| == |bytes| + |head| + 1;
    StartExtracts(Parser(p.res, p.params + [Extend(p.current.value, head).bytes], None), events + [|bytes| + |head|], read, tail, invalid);
  }

  lemma Transfer(p: Result<Parser>, q: Result<Parser>, e: Result<seq<nat>>, f: Result<seq<nat>>, x: Bytes, y: Bytes)
    requires BothExtract(p, e, x) && p == q && e == f && x == y
    ensures BothExtract(q, f, y)
  {
  }

  lemma EndedIs(p: Parser, c: Chunk, k: nat)
    requires p.current.Some? && k < |c.valid|
    ensures Start(Parser(p.res, p.params + [Extend(p.current.value, c.valid[..k]).bytes], None), c.valid[k + 1..], c.invalid)
         == Ended(p, c.valid, c.invalid, Some(k))
  {
  }

  lemma CloseEventsIs(events: seq<nat>, base: nat, c: Chunk, k: nat)
    requires k < |c.valid|
    ensures OpenEvents(TheParser, events + [base + |c.valid[..k]|], base + |c.valid[..k]| + 1, c.valid[k + 1..], c.invalid)
         == CloseEvents(TheParser, events, base, c, Some(k))
  {
    assert |c.valid[..k]| == k;
  }

  /** The literal being read ends at k. */
  lemma CloseExtracts(p: Parser, events: seq<nat>, bytes: Bytes, c: Chunk, k: nat)
    requires Extracted(p, events, bytes) && p.current.Some? && k < |c.valid| && c.valid[k] == QUOTE
    requires !Extend(p.current.value, c.valid[..k]).dangling
    ensures BothExtract(Ended(p, c.valid, c.invalid, Some(k)), CloseEvents(TheParser, events, |bytes|, c, Some(k)),
                        bytes + (c.valid + c.invalid))
  {
    var head, tail := c.valid[..k], c.valid[k + 1..];
    EndThenStart(p, events, bytes, head, tail, c.invalid);
    EndedIs(p, c, k);
    CloseEventsIs(events, |bytes|, c, k);
    CutBehind(bytes, c.valid, k, c.invalid);
    Transfer(Start(Parser(p.res, p.params + [Extend(p.current.value, head).bytes], None), tail, c.invalid),
             Ended(p, c.valid, c.invalid, Some(k)),
             OpenEvents(TheParser, events + [|bytes| + |head|], |bytes| + |head| + 1, tail, c.invalid),
             CloseEvents(TheParser, events, |bytes|, c, Some(k)),
             (bytes + (head + [QUOTE])) + (tail + c.invalid), bytes + (c.valid + c.invalid));
  }

  /** The whole chunk belongs to the literal being read. */
  lemma WholeExtracts(p: Parser, events: seq<nat>, bytes: Bytes, c: Chunk)
    requires Extracted(p, events, bytes) && p.current.Some?
    ensures BothExtract(Ended(p, c.valid, c.invalid, None), Ok(events), bytes + (c.valid + c.invalid))
  {
    ExtendPieces(p.current.value, c.valid, c.invalid);
    ReadExtracts(p, events, bytes, c.valid + c.invalid);
  }

  lemma CutBehind(bytes: Bytes, s: Bytes, k: nat, more: Bytes)
    requires k < |s| && s[k] == QUOTE
    ensures (bytes + (s[..k] + [QUOTE])) + (s[k + 1..] + more) == bytes + (s + more)
  {
    assert s == s[..k] + [QUOTE] + s[k + 1..];
  }

  lemma AddInside(p: Parser, c: Chunk)
    requires p.current.Some? && !p.current.value.dangling
    ensures Add(p, c) == Ended(p, c.valid, c.invalid, ClosesAt(TheParser, c.valid))
    ensures NothingDangles(p.current.value, c.valid, ClosesAt(TheParser, c.valid))
  {
    ContinueClosesAt(p, c.valid, c.invalid);
  }

  lemma ContinueExtracts(p: Parser, events: seq<nat>, bytes: Bytes, c: Chunk, k: Option<nat>)
    requires Extracted(p, events, bytes) && p.current.Some? && (k.Some? ==> k.value < |c.valid| && c.valid[k.value] == QUOTE)
    requires NothingDangles(p.current.value, c.valid, k)
    ensures BothExtract(Ended(p, c.valid, c.invalid, k), CloseEvents(TheParser, events, |bytes|, c, k), bytes + (c.valid + c.invalid))
  {
    if k.None? {
      WholeExtracts(p, events, bytes, c);
    } else {
      CloseExtracts(p, events, bytes, c, k.value);
    }
  }

  lemma AddExtracts(p: Parser, events: seq<nat>, bytes: Bytes, c: Chunk)
    requires Extracted(p, events, bytes) && (p.current.Some? ==> !p.current.value.dangling)
    ensures BothExtract(Add(p, c), StepEvents(TheParser, events, |bytes|, c), bytes + (c.valid + c.invalid))
  {
    if p.current.None? {
      StartExtracts(p, events, bytes, c.valid, c.invalid);
    } else {
      AddInside(p, c);
      var k := ClosesAt(TheParser, c.valid);
      if k.Some? { QuoteThere(c.valid, k.value); }
      ContinueExtracts(p, events, bytes, c, k);
    }
  }

  lemma QuoteThere(valid: Bytes, k: nat)
    requires ClosesAt(TheParser, valid) == Some(k)
    ensures k < |valid| && valid[k] == QUOTE
  {
  }

  /** After invalid bytes no escape dangles: the parser's test for one at the start of a chunk never succeeds. */
  lemma NothingDanglesAfterInvalid(at: nat, bytes: Bytes, invalid: Bytes)
    requires at < |bytes| && invalid != [] && NoAscii(invalid)
    ensures !Unescape(false, (bytes + invalid)[at + 1..]).dangling
  {
    var raw := (bytes + invalid)[at + 1..];
    assert raw[|raw| - 1] == invalid[|invalid| - 1];
    if Unescape(false, raw).dangling { DanglesAfterEscape(false, raw); }
  }

  lemma SettledAfter(p: Parser, events: seq<nat>, before: Bytes, invalid: Bytes)
    requires Extracted(p, events, before + invalid) && p.current.Some? && invalid != [] && NoAscii(invalid)
    requires events[|events| - 1] < |before|
    ensures !p.current.value.dangling
  {
    NothingDanglesAfterInvalid(events[|events| - 1], before, invalid);
  }

  lemma BytesOfLast(chunks: seq<Chunk>)
    requires chunks != []
    ensures var c := chunks[|chunks| - 1];
            BytesOf(chunks) == (BytesOf(chunks[..|chunks| - 1]) + c.valid) + c.invalid
  {
    var c := chunks[|chunks| - 1];
    Regroup(BytesOf(chunks[..|chunks| - 1]), c.valid, c.invalid);
  }

  lemma Regroup(a: Bytes, b: Bytes, c: Bytes)
    ensures a + (b + c) == (a + b) + c
  {
  }

  /** Between chunks nothing dangles. */
  lemma SettledBetween(chunks: seq<Chunk>, p: Parser, events: seq<nat>)
    requires Utf8Cut(chunks) && chunks != [] && chunks[|chunks| - 1].invalid != [] && Events(TheParser, chunks) == Ok(events)
    requires Extracted(p, events, BytesOf(chunks)) && p.current.Some?
    ensures !p.current.value.dangling
  {
    BytesOfLast(chunks);
    LastEventBeforeInvalid(chunks);
    SettledAfter(p, events, BytesOf(chunks[..|chunks| - 1]) + chunks[|chunks| - 1].valid, chunks[|chunks| - 1].invalid);
  }

  lemma NothingReadYet()
    ensures AddAll([]) == Ok(Parser([], [], None)) && Events(TheParser, []) == Ok([])
    ensures Extracted(Parser([], [], None), [], BytesOf([]))
  {
  }

  /** The last chunk is read on what the others left. */
  lemma ReadLast(chunks: seq<Chunk>)
    requires chunks != []
    ensures var init, c := chunks[..|chunks| - 1], chunks[|chunks| - 1];
            && BytesOf(chunks) == BytesOf(init) + (c.valid + c.invalid)
            && (if AddAll(init).Ok? then AddAll(chunks) == Add(AddAll(init).value, c) else AddAll(chunks).Err?)
            && (if Events(TheParser, init).Ok?
                then Events(TheParser, chunks) == StepEvents(TheParser, Events(TheParser, init).value, |BytesOf(init)|, c)
                else Events(TheParser, chunks).Err?)
  {
  }

  lemma CutPrefix(chunks: seq<Chunk>)
    requires Utf8Cut(chunks) && chunks != []
    ensures var init := chunks[..|chunks| - 1]; Utf8Cut(init) && (init != [] ==> init[|init| - 1].invalid != [])
  {
    var init := chunks[..|chunks| - 1];
    assert forall i | 0 <= i < |init| :: init[i] == chunks[i];
  }

  /** One more chunk. */
  lemma OneMoreExtracts(chunks: seq<Chunk>, p: Parser, events: seq<nat>)
    requires Utf8Cut(chunks) && chunks != []
    requires var init := chunks[..|chunks| - 1];
             AddAll(init) == Ok(p) && Events(TheParser, init) == Ok(events) && Extracted(p, events, BytesOf(init))
    ensures BothExtract(AddAll(chunks), Events(TheParser, chunks), BytesOf(chunks))
  {
    var init, c := chunks[..|chunks| - 1], chunks[|chunks| - 1];
    CutPrefix(chunks);
    if init == [] {
      NothingReadYet();
    } else if p.current.Some? {
      SettledBetween(init, p, events);
    }
    AddExtracts(p, events, BytesOf(init), c);
    ReadLast(chunks);
    Transfer(Add(p, c), AddAll(chunks), StepEvents(TheParser, events, |BytesOf(init)|, c), Events(TheParser, chunks),
             BytesOf(init) + (c.valid + c.invalid), BytesOf(chunks));
  }

  /** The events of the parser are where it cuts: it fails when they do, and each parameter is the text between its two quotes. */
  lemma {:induction false} EventsAreTheParsers(chunks: seq<Chunk>)
    requires Utf8Cut(chunks)
    ensures BothExtract(AddAll(chunks), Events(TheParser, chunks), BytesOf(chunks))
  {
    if chunks == [] {
      NothingReadYet();
    } else {
      var init := chunks[..|chunks| - 1];
      CutPrefix(chunks);
      EventsAreTheParsers(init);
      if AddAll(init).Ok? {
        OneMoreExtracts(chunks, AddAll(init).value, Events(TheParser, init).value);
      } else {
        ReadLast(chunks);
      }
    }
  }

  lemma LastEventBeforeInvalid(chunks: seq<Chunk>)
    requires chunks != [] && Events(TheParser, chunks).Ok? && Events(TheParser, chunks).value != []
    ensures var ev := Events(TheParser, chunks).value;
            ev[|ev| - 1] < |BytesOf(chunks[..|chunks| - 1]) + chunks[|chunks| - 1].valid|
  {
    var init, c := chunks[..|chunks| - 1], chunks[|chunks| - 1];
    EventsAreInside(TheParser, init);
    StepGrows(TheParser, Events(TheParser, init).value, |BytesOf(init)|, c);
  }

  // ----- The scanner's events are those of the whole query -----

  function ShiftScan(st: Scan, base: nat): Scan {
    match st
    case Outside => Outside
    case Inside(at, dangling) => Inside(base + at, dangling)
    case Closing(at) => Closing(base + at)
  }

  lemma {:induction false} ScanShifted(base: nat, s: Bytes)
    ensures ScanOn(Outside, base, s) == ShiftScan(ScanText(s), base)
    decreases |s|
  {
    if s != [] {
      ScanShifted(base, s[..|s| - 1]);
    }
  }

  lemma {:induction false} ClosedIsOutside(at: nat, base: nat, s: Bytes)
    requires s != [] && s[0] != QUOTE
    ensures ScanOn(Closing(at), base, s) == ScanOn(Outside, base, s)
    decreases |s|
  {
    if |s| == 1 {
      assert s[..0] == [];
    } else {
      ClosedIsOutside(at, base, s[..|s| - 1]);
    }
  }

  lemma {:induction false} InvalidStaysInside(at: nat, dangling: bool, base: nat, s: Bytes)
    requires s != [] && NoAscii(s)
    ensures ScanOn(Inside(at, dangling), base, s) == Inside(at, false)
    decreases |s|
  {
    if |s| == 1 {
      assert s[..0] == [];
    } else {
      InvalidStaysInside(at, dangling, base, s[..|s| - 1]);
    }
  }

  /** In the whole query a literal opens at a and ends at b. */
  ghost predicate IsLiteral(bytes: Bytes, a: nat, b: nat) {
    && b < |bytes| && ScanText(bytes[..b + 1]) == Closing(a)
    && (b + 1 < |bytes| ==> bytes[b + 1] != QUOTE)
  }

  /** The scan of the query up to the end of the text of chunk j. */
  function ScanTo(chunks: seq<Chunk>, j: nat): Scan
    requires j < |chunks|
  {
    ScanText(BytesOf(chunks[..j]) + chunks[j].valid)
  }

  /** From the state before a chunk to the state after its text. */
  lemma ScanChunk(bytes: Bytes, valid: Bytes)
    ensures ScanText(bytes + valid) == ScanOn(ScanText(bytes), |bytes|, valid)
  {
    ScanPieces(Outside, 0, bytes, valid);
  }

  /** From the closing quote on. */
  lemma ScanFromClosing(at: nat, base: nat, tail: Bytes)
    requires tail != [] ==> tail[0] != QUOTE
    ensures ScanOn(Closing(at), base, tail) == if tail == [] then Closing(at) else ShiftScan(ScanText(tail), base)
  {
    if tail != [] {
      ClosedIsOutside(at, base, tail);
      ScanShifted(base, tail);
    }
  }

  /** The text of a chunk that starts inside a literal and ends it at k. */
  lemma ScanPastClose(at: nat, base: nat, valid: Bytes, k: nat)
    requires ScanClose(false, valid) == Some(k)
    ensures ScanOn(Inside(at, false), base, valid[..k + 1]) == Closing(at)
    ensures var tail := valid[k + 1..];
            ScanOn(Inside(at, false), base, valid) == if tail == [] then Closing(at) else ShiftScan(ScanText(tail), base + k + 1)
  {
    var head, tail := valid[..k + 1], valid[k + 1..];
    CloseOfPrefix(valid, k);
    ScanFromInside(at, false, base, head);
    ScanFromClosing(at, base + k + 1, tail);
    ScanPieces(Inside(at, false), base, head, tail);
    assert valid == head + tail;
  }

  lemma {:induction false} CloseOfPrefix(s: Bytes, k: nat)
    requires ScanClose(false, s) == Some(k)
    ensures ScanClose(false, s[..k + 1]) == Some(k)
    decreases |s|
  {
    if k + 1 < |s| {
      var n := |s| - 1;
      assert s == s[..n] + [s[n]];
      CloseAppend(false, s[..n], s[n]);
      CloseOfPrefix(s[..n], k);
      assert s[..n][..k + 1] == s[..k + 1];
    } else {
      assert s[..k + 1] == s;
    }
  }

  /** The state after the text of a chunk that starts inside the literal opened at `at`. */
  lemma ScanFromLiteral(bytes: Bytes, at: nat, valid: Bytes, k: Option<nat>)
    requires ScanText(bytes) == Inside(at, false) && k == ScanClose(false, valid)
    ensures k.None? ==> ScanText(bytes + valid).Inside? && ScanText(bytes + valid).at == at
    ensures k.Some? ==>
              var opening := OpensAtQuote(TheScanner, valid[k.value + 1..]);
              && (ScanText(bytes + valid).Inside? <==> opening.Some?)
              && (opening.Some? ==> ScanText(bytes + valid).at == |bytes| + k.value + 1 + opening.value)
  {
    ScanChunk(bytes, valid);
    if k.None? {
      ScanFromInside(at, false, |bytes|, valid);
    } else {
      ScanPastClose(at, |bytes|, valid, k.value);
    }
  }

  /** One chunk of the scanner, from inside the literal opened at the last event. */
  lemma ScannerStep(bytes: Bytes, events: seq<nat>, c: Chunk)
    requires |events| % 2 == 1 && ScanText(bytes) == Inside(events[|events| - 1], false)
    requires c.invalid != []
    ensures StepEvents(TheScanner, events, |bytes|, c).Ok? <==> ScanText(bytes + c.valid).Inside?
    ensures StepEvents(TheScanner, events, |bytes|, c).Ok? ==>
              var after := StepEvents(TheScanner, events, |bytes|, c).value;
              |after| % 2 == 1 && ScanText(bytes + c.valid).at == after[|after| - 1]
  {
    ScanFromLiteral(bytes, events[|events| - 1], c.valid, ClosesAt(TheScanner, c.valid));
  }

  lemma InsideAfterInvalid(bytes: Bytes, valid: Bytes, invalid: Bytes)
    requires ScanText(bytes + valid).Inside? && invalid != [] && NoAscii(invalid)
    ensures ScanText(bytes + (valid + invalid)) == Inside(ScanText(bytes + valid).at, false)
  {
    assert bytes + (valid + invalid) == (bytes + valid) + invalid;
    ScanChunk(bytes + valid, invalid);
    var st := ScanText(bytes + valid);
    InvalidStaysInside(st.at, st.dangling, |bytes + valid|, invalid);
  }

  /** After a chunk with invalid bytes the whole scan is inside the literal of the last event. */
  lemma {:induction false} ScannerState(chunks: seq<Chunk>)
    requires Utf8Cut(chunks) && chunks != [] && chunks[|chunks| - 1].invalid != [] && Events(TheScanner, chunks).Ok?
    ensures var ev := Events(TheScanner, chunks).value;
            && |ev| % 2 == 1
            && ScanTo(chunks, |chunks| - 1).Inside? && ScanTo(chunks, |chunks| - 1).at == ev[|ev| - 1]
            && ScanText(BytesOf(chunks)) == Inside(ev[|ev| - 1], false)
    decreases |chunks|, 1
  {
    var last := |chunks| - 1;
    var init, c := chunks[..last], chunks[last];
    ScannerAtLast(chunks);
    InsideAfterInvalid(BytesOf(init), c.valid, c.invalid);
  }

  /** The last chunk of a query, whose earlier chunks all have invalid bytes. */
  lemma {:induction false} ScannerAtLast(chunks: seq<Chunk>)
    requires Utf8Cut(chunks) && chunks != [] && chunks[|chunks| - 1].invalid != [] && Events(TheScanner, chunks[..|chunks| - 1]).Ok?
    ensures Events(TheScanner, chunks).Ok? <==> ScanTo(chunks, |chunks| - 1).Inside?
    ensures Events(TheScanner, chunks).Ok? ==>
              var ev := Events(TheScanner, chunks).value;
              |ev| % 2 == 1 && ScanTo(chunks, |chunks| - 1).at == ev[|ev| - 1]
    decreases |chunks|, 0
  {
    var last := |chunks| - 1;
    var init, c := chunks[..last], chunks[last];
    if last == 0 {
      assert init == [] && BytesOf(init) + c.valid == c.valid;
    } else {
      assert forall i | 0 <= i < last :: init[i] == chunks[i];
      ScannerState(init);
      ScannerStep(BytesOf(init), Events(TheScanner, init).value, c);
    }
  }

  /** All invalid bytes of the first n chunks are inside literals of the whole query. */
  predicate AllInside(chunks: seq<Chunk>, n: nat)
    requires n <= |chunks|
  {
    forall j | 0 <= j < n && chunks[j].invalid != [] :: ScanTo(chunks, j).Inside?
  }

  lemma SameScans(chunks: seq<Chunk>, n: nat)
    requires n <= |chunks|
    ensures AllInside(chunks[..n], n) <==> AllInside(chunks, n)
  {
    var init := chunks[..n];
    assert forall j | 0 <= j < n :: init[j] == chunks[j] && init[..j] == chunks[..j];
    assert forall j | 0 <= j < n :: ScanTo(init, j) == ScanTo(chunks, j);
  }

  /** The scanner gets through exactly when all invalid bytes are inside literals of the whole query. */
  lemma {:induction false} ScannerSucceedsExactly(chunks: seq<Chunk>)
    requires Utf8Cut(chunks)
    ensures Events(TheScanner, chunks).Ok? <==> AllInside(chunks, |chunks|)
  {
    if chunks != [] {
      var last := |chunks| - 1;
      var init := chunks[..last];
      assert forall i | 0 <= i < last :: init[i] == chunks[i];
      ScannerSucceedsExactly(init);
      SameScans(chunks, last);
      if Events(TheScanner, init).Ok? && chunks[last].invalid != [] {
        ScannerAtLast(chunks);
      }
    }
  }

  lemma LiteralStays(bytes: Bytes, more: Bytes, a: nat, b: nat)
    requires IsLiteral(bytes, a, b) && b + 1 < |bytes|
    ensures IsLiteral(bytes + more, a, b)
  {
    assert (bytes + more)[..b + 1] == bytes[..b + 1];
  }

  /** The quote at which the scanner ends a literal ends it in the whole query. */
  lemma StepEndsLiteral(bytes: Bytes, at: nat, c: Chunk, k: nat)
    requires ScanText(bytes) == Inside(at, false) && ScanClose(false, c.valid) == Some(k) && NoAscii(c.invalid)
    ensures IsLiteral(bytes + (c.valid + c.invalid), at, |bytes| + k)
  {
    var all := bytes + (c.valid + c.invalid);
    ScanPastClose(at, |bytes|, c.valid, k);
    ScanChunk(bytes, c.valid[..k + 1]);
    assert all[..|bytes| + k + 1] == bytes + c.valid[..k + 1];
    if k + 1 < |c.valid| {
      assert all[|bytes| + k + 1] == c.valid[k + 1];
    } else if c.invalid != [] {
      assert all[|bytes| + k + 1] == c.invalid[0];
    }
  }

  ghost predicate LiteralsAt(events: seq<nat>, bytes: Bytes) {
    forall i | 0 <= 2 * i && 2 * i + 1 < |events| :: IsLiteral(bytes, events[2 * i], events[2 * i + 1])
  }

  lemma StepKeepsLiterals(bytes: Bytes, before: seq<nat>, c: Chunk, i: nat)
    requires |before| % 2 == 1 && ScanText(bytes) == Inside(before[|before| - 1], false)
    requires LiteralsAt(before, bytes) && bytes != [] && bytes[|bytes| - 1] != QUOTE && NoAscii(c.invalid)
    requires StepEvents(TheScanner, before, |bytes|, c).Ok? && 2 * i + 1 < |StepEvents(TheScanner, before, |bytes|, c).value|
    ensures var after := StepEvents(TheScanner, before, |bytes|, c).value;
            IsLiteral(bytes + (c.valid + c.invalid), after[2 * i], after[2 * i + 1])
  {
    var after := StepEvents(TheScanner, before, |bytes|, c).value;
    StepGrows(TheScanner, before, |bytes|, c);
    if 2 * i + 1 < |before| {
      assert IsLiteral(bytes, before[2 * i], before[2 * i + 1]);
      EndsBefore(bytes, before[2 * i], before[2 * i + 1]);
      LiteralStays(bytes, c.valid + c.invalid, before[2 * i], before[2 * i + 1]);
    } else {
      AtMostOneEnds(before, |bytes|, c);
      FirstEvent(TheScanner, before, |bytes|, c, ClosesAt(TheScanner, c.valid));
      StepEndsLiteral(bytes, before[|before| - 1], c, ScanClose(false, c.valid).value);
    }
  }

  lemma EndsBefore(bytes: Bytes, a: nat, b: nat)
    requires bytes != [] && bytes[|bytes| - 1] != QUOTE && IsLiteral(bytes, a, b)
    ensures b + 1 < |bytes|
  {
    ClosingAtQuote(bytes[..b + 1]);
    assert bytes[..b + 1][b] == bytes[b];
  }

  /** Every literal the scanner extracts is one of the whole query. */
  lemma {:induction false} ScannerFindsLiterals(chunks: seq<Chunk>)
    requires Utf8Cut(chunks) && Events(TheScanner, chunks).Ok?
    ensures LiteralsAt(Events(TheScanner, chunks).value, BytesOf(chunks))
  {
    if |chunks| > 1 {
      var last := |chunks| - 1;
      var init, c := chunks[..last], chunks[last];
      assert forall i | 0 <= i < last :: init[i] == chunks[i];
      ScannerFindsLiterals(init);
      ScannerState(init);
      var before, bytes := Events(TheScanner, init).value, BytesOf(init);
      assert bytes[|bytes| - 1] >= 128;
      forall i | 0 <= 2 * i && 2 * i + 1 < |Events(TheScanner, chunks).value|
        ensures IsLiteral(BytesOf(chunks), Events(TheScanner, chunks).value[2 * i], Events(TheScanner, chunks).value[2 * i + 1])
      {
        StepKeepsLiterals(bytes, before, c, i);
      }
    } else {
      AtMostOneEvent(chunks);
    }
  }

  lemma AtMostOneEvent(chunks: seq<Chunk>)
    requires |chunks| <= 1 && Events(TheScanner, chunks).Ok?
    ensures |Events(TheScanner, chunks).value| <= 1
  {
    if chunks != [] {
      assert chunks[..0] == [];
    }
  }

  /** Inside a literal a chunk adds at most its end and one opening. */
  lemma AtMostOneEnds(events: seq<nat>, base: nat, c: Chunk)
    requires |events| % 2 == 1 && StepEvents(TheScanner, events, base, c).Ok?
    ensures |StepEvents(TheScanner, events, base, c).value| <= |events| + 2
  {
  }

  /** The query `x '\n` with the byte 255 and a closing quote becomes `x ?` with the parameter newline, 255. */
  lemma ThisQueryIsRewritten()
    ensures AddAll([Chunk([120, 32, 39, 92, 110], [255]), Chunk([39], [])]) == Ok(Parser([120, 32, 63], [[10, 255]], None))
  {
    var first, second := Chunk([120, 32, 39, 92, 110], [255]), Chunk([39], []);
    assert [first][..0] == [] && [first, second][..1] == [first];
    assert AddAll([first][..0]) == Ok(Parser([], [], None));
    FirstChunk();
    assert AddAll([first]) == Ok(Parser([120, 32, 63], [], Some(Unescaped([10, 255], false))));
    SecondChunk();
  }

  lemma FirstChunk()
    ensures Add(Parser([], [], None), Chunk([120, 32, 39, 92, 110], [255])) == Ok(Parser([120, 32, 63], [], Some(Unescaped([10, 255], false))))
  {
    var empty, valid: Bytes, invalid: Bytes := Parser([], [], None), [120, 32, 39, 92, 110], [255];
    OpensAtThird();
    ReadsNewline();
    assert LastQuote(valid) == Some(2);
    assert empty.res + valid[..2] + [MARK] == [120, 32, 63];
    assert valid[2 + 1..] == [92, 110];
    assert Start(empty, valid, invalid) == Ok(Parser([120, 32, 63], [], Some(Unescaped([10, 255], false))));
  }

  lemma SecondChunk()
    ensures Add(Parser([120, 32, 63], [], Some(Unescaped([10, 255], false))), Chunk([39], [])) == Ok(Parser([120, 32, 63], [[10, 255]], None))
  {
    var p, valid: Bytes := Parser([120, 32, 63], [], Some(Unescaped([10, 255], false))), [39];
    StopsAtOnce(valid);
    ContinueClosesAt(p, valid, []);
    assert valid[..0] == [] && valid[0 + 1..] == [];
    var last := Extend(p.current.value, valid[..0]);
    assert last.bytes == [10, 255];
    assert p.params + [last.bytes] == [[10, 255]];
    assert p.res + valid[0 + 1..] == p.res;
    assert Ended(p, valid, [], Some(0)) == Ok(Parser([120, 32, 63], [[10, 255]], None));
  }

  lemma OpensAtThird()
    ensures LastQuote([120, 32, 39, 92, 110]) == Some(2)
    ensures [120, 32, 39, 92, 110][..2] == [120, 32] && [120, 32, 39, 92, 110][3..] == [92, 110]
  {
    var s: Bytes := [120, 32, 39, 92, 110];
    assert s[2] == QUOTE && NoQuote(s, 3, 5);
    LastQuoteIs(s, 2);
  }

  lemma ReadsNewline()
    ensures Extend(Extend(Unescaped([], false), [92, 110]), [255]) == Unescaped([10, 255], false)
  {
    assert [92, 110][1..] == [110] && [110][1..] == [] && [255][1..] == [];
    assert Unescape(true, [110]) == Unescaped([10], false);
    assert Unescape(false, [92, 110]) == Unescaped([10], false);
    assert Unescape(false, [255]) == Unescaped([255], false);
  }
}
