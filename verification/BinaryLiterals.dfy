/**
  Pulling binary literals out of a query that is not valid UTF-8. The query comes in chunks of valid
  text followed by invalid bytes; every literal holding invalid bytes is replaced by a placeholder
  and becomes a parameter.

  Quote and backslash are single bytes that occur in no longer UTF-8 character, so text is modelled
  as its bytes.
 */
module BinaryLiterals {
  import opened Basics
  import opened LengthPrefixed

  const QUOTE: Byte := 39
  const ESCAPE: Byte := 92
  const MARK: Byte := 63

  // ----- Unescaping -----

  function ReplaceEscaped(b: Byte): Byte {
    if b == 48 then 0          // 0
    else if b == 98 then 8     // b
    else if b == 110 then 10   // n
    else if b == 114 then 13   // r
    else if b == 116 then 9    // t
    else if b == 90 then 26    // Z
    else b
  }

  /** Unescaped bytes, and whether the last byte is an escape still waiting for its character. */
  datatype Unescaped = Unescaped(bytes: Bytes, dangling: bool)

  function Unescape(dangling: bool, s: Bytes): Unescaped
    decreases |s|
  {
    if s == [] then Unescaped([], dangling)
    else if dangling then
      var u := Unescape(false, s[1..]);
      u.(bytes := [ReplaceEscaped(s[0])] + u.bytes)
    else if s[0] == ESCAPE then Unescape(true, s[1..])
    else
      var u := Unescape(false, s[1..]);
      u.(bytes := [s[0]] + u.bytes)
  }

  function Extend(u: Unescaped, s: Bytes): Unescaped {
    var v := Unescape(u.dangling, s);
    Unescaped(u.bytes + v.bytes, v.dangling)
  }

  /** Unescaping in pieces is unescaping the whole. */
  lemma {:induction false} UnescapePieces(dangling: bool, s: Bytes, t: Bytes)
    ensures Unescape(dangling, s + t) == Extend(Unescape(dangling, s), t)
    decreases |s|
  {
    if s == [] {
      assert s + t == t;
    } else {
      assert (s + t)[1..] == s[1..] + t;
      UnescapePieces(!dangling && s[0] == ESCAPE, s[1..], t);
    }
  }

  /** Only a backslash can dangle. */
  lemma {:induction false} DanglesAfterEscape(dangling: bool, s: Bytes)
    requires s != [] && Unescape(dangling, s).dangling
    ensures s[|s| - 1] == ESCAPE
    decreases |s|
  {
    if |s| > 1 {
      DanglesAfterEscape(!dangling && s[0] == ESCAPE, s[1..]);
    }
  }

  /** A quote always completes an escape. */
  lemma QuoteEndsEscape(dangling: bool, s: Bytes)
    ensures !Unescape(dangling, s + [QUOTE]).dangling
  {
    UnescapePieces(dangling, s, [QUOTE]);
    assert [QUOTE][1..] == [];
    assert !Unescape(true, [QUOTE]).dangling && !Unescape(false, [QUOTE]).dangling;
  }

  /** The vector that unescapes what is pushed. */
  class AutoEscapeVec {
    var inner: Bytes
    var hasDanglingEscape: bool

    constructor ()
      ensures View() == Unescaped([], false)
    {
      inner, hasDanglingEscape := [], false;
    }

    ghost function View(): Unescaped
      reads this
    {
      Unescaped(inner, hasDanglingEscape)
    }

    method ExtendUnescape(bytes: Bytes)
      modifies this
      ensures View() == Extend(old(View()), bytes)
    {
      var previousWasEscape := hasDanglingEscape;
      for i := 0 to |bytes|
        invariant hasDanglingEscape == old(hasDanglingEscape)
        invariant Extend(Unescaped(inner, previousWasEscape), bytes[i..]) == Extend(old(View()), bytes)
      {
        var b := bytes[i];
        assert bytes[i..][0] == b && bytes[i..][1..] == bytes[i + 1..];
        ghost var rest := Unescape(false, bytes[i + 1..]).bytes;
        if previousWasEscape {
          assert inner + ([ReplaceEscaped(b)] + rest) == (inner + [ReplaceEscaped(b)]) + rest;
          inner := inner + [ReplaceEscaped(b)];
          previousWasEscape := false;
        } else if b == ESCAPE {
          previousWasEscape := true;
        } else {
          assert inner + ([b] + rest) == (inner + [b]) + rest;
          inner := inner + [b];
        }
      }
      hasDanglingEscape := previousWasEscape;
    }
  }

  // ----- The parser -----

  datatype Chunk = Chunk(valid: Bytes, invalid: Bytes)

  /** Rewritten text, finished parameters, and the literal being read. */
  datatype Parser = Parser(res: Bytes, params: seq<Bytes>, current: Option<Unescaped>)

  predicate NoQuote(s: Bytes, from: nat, to: nat)
    requires from <= to <= |s|
  {
    forall i | from <= i < to :: s[i] != QUOTE
  }

  function FirstQuote(s: Bytes): (r: Option<nat>)
    ensures r.None? ==> NoQuote(s, 0, |s|)
    ensures r.Some? ==> r.value < |s| && s[r.value] == QUOTE && NoQuote(s, 0, r.value)
  {
    FirstQuoteFrom(s, 0)
  }

  function FirstQuoteFrom(s: Bytes, from: nat): (r: Option<nat>)
    requires from <= |s|
    ensures r.None? ==> NoQuote(s, from, |s|)
    ensures r.Some? ==> from <= r.value < |s| && s[r.value] == QUOTE && NoQuote(s, from, r.value)
    decreases |s| - from
  {
    if from == |s| then None else if s[from] == QUOTE then Some(from) else FirstQuoteFrom(s, from + 1)
  }

  function LastQuote(s: Bytes): (r: Option<nat>)
    ensures r.None? ==> NoQuote(s, 0, |s|)
    ensures r.Some? ==> r.value < |s| && s[r.value] == QUOTE && NoQuote(s, r.value + 1, |s|)
  {
    LastQuoteBefore(s, |s|)
  }

  function LastQuoteBefore(s: Bytes, to: nat): (r: Option<nat>)
    requires to <= |s|
    ensures r.None? ==> NoQuote(s, 0, to)
    ensures r.Some? ==> r.value < to && s[r.value] == QUOTE && NoQuote(s, r.value + 1, to)
  {
    if to == 0 then None else if s[to - 1] == QUOTE then Some(to - 1) else LastQuoteBefore(s, to - 1)
  }

  /** Outside a literal: invalid bytes belong to a literal opened at the last quote before them. */
  function Start(p: Parser, valid: Bytes, invalid: Bytes): Result<Parser> {
    if invalid == [] then Ok(p.(res := p.res + valid))
    else
      match LastQuote(valid)
      case None => Err("failed to locate binary string start")
      case Some(q) =>
        Ok(p.(res := p.res + valid[..q] + [MARK],
              current := Some(Extend(Extend(Unescaped([], false), valid[q + 1..]), invalid))))
  }

  /** Inside a literal: reads up to its closing quote, if it is in this chunk. */
  function Continue(p: Parser, valid: Bytes, invalid: Bytes): Result<Parser>
    requires p.current.Some?
    decreases |valid|
  {
    var u := p.current.value;
    match FirstQuote(valid)
    case None => Ok(p.(current := Some(Extend(Extend(u, valid), invalid))))
    case Some(q) =>
      if q > 0 && valid[q - 1] == ESCAPE then
        Continue(p.(current := Some(Extend(u, valid[..q + 1]))), valid[q + 1..], invalid)
      else if q == 0 && u.dangling then
        Continue(p.(current := Some(Extend(u, [QUOTE]))), valid[1..], invalid)
      else
        var last := Extend(u, valid[..q]);
        if last.dangling then Err("dangling escape character")
        else Start(Parser(p.res, p.params + [last.bytes], None), valid[q + 1..], invalid)
  }

  function Add(p: Parser, c: Chunk): Result<Parser> {
    if p.current.None? then Start(p, c.valid, c.invalid) else Continue(p, c.valid, c.invalid)
  }

  function AddAll(chunks: seq<Chunk>): Result<Parser> {
    if chunks == [] then Ok(Parser([], [], None))
    else
      var p :- AddAll(chunks[..|chunks| - 1]);
      Add(p, chunks[|chunks| - 1])
  }

  // ----- Where a literal ends -----

  function Shift(n: nat, k: Option<nat>): Option<nat> {
    if k.None? then None else Some(n + k.value)
  }

  /** The closing quote the parser picks in a text that starts inside a literal. */
  function CloseAt(dangling: bool, s: Bytes): (r: Option<nat>)
    ensures r.Some? ==> r.value < |s| && s[r.value] == QUOTE
    decreases |s|
  {
    match FirstQuote(s)
    case None => None
    case Some(q) =>
      if q > 0 && s[q - 1] == ESCAPE then
        Shift(q + 1, CloseAt(Unescape(dangling, s[..q + 1]).dangling, s[q + 1..]))
      else if q == 0 && dangling then
        Shift(1, CloseAt(false, s[1..]))
      else
        Some(q)
  }

  /** The parser takes a quote as escaped when a backslash precedes it, or when it comes first and an escape dangles. */
  predicate TakenAsEscaped(dangling: bool, s: Bytes, q: nat)
    requires q < |s|
  {
    (q > 0 && s[q - 1] == ESCAPE) || (q == 0 && dangling)
  }

  /** A quote that is escaped is taken as escaped. */
  lemma EscapedIsTakenAsEscaped(dangling: bool, s: Bytes, q: nat)
    requires FirstQuote(s) == Some(q) && Unescape(dangling, s[..q]).dangling
    ensures TakenAsEscaped(dangling, s, q)
  {
    if q > 0 {
      DanglesAfterEscape(dangling, s[..q]);
    } else {
      assert s[..q] == [];
    }
  }

  /** The first quote is taken as escaped: both the parser and `CloseAt` go on behind it. */
  lemma ContinueSkips(p: Parser, valid: Bytes, invalid: Bytes, q: nat)
    requires p.current.Some? && FirstQuote(valid) == Some(q) && TakenAsEscaped(p.current.value.dangling, valid, q)
    ensures var v := Extend(p.current.value, valid[..q + 1]);
            && !v.dangling
            && Continue(p, valid, invalid) == Continue(p.(current := Some(v)), valid[q + 1..], invalid)
            && CloseAt(p.current.value.dangling, valid) == Shift(q + 1, CloseAt(v.dangling, valid[q + 1..]))
  {
    assert valid[..q + 1] == valid[..q] + [QUOTE];
    QuoteEndsEscape(p.current.value.dangling, valid[..q]);
    assert q == 0 ==> valid[..q + 1] == [QUOTE];
  }

  /** What comes of reading everything, or of ending the literal at position k and going on outside it. */
  function Ended(p: Parser, valid: Bytes, invalid: Bytes, k: Option<nat>): Result<Parser>
    requires p.current.Some? && (k.Some? ==> k.value < |valid|)
  {
    if k.None? then
      Ok(p.(current := Some(Extend(Extend(p.current.value, valid), invalid))))
    else
      Start(Parser(p.res, p.params + [Extend(p.current.value, valid[..k.value]).bytes], None), valid[k.value + 1..], invalid)
  }

  predicate NothingDangles(u: Unescaped, valid: Bytes, k: Option<nat>)
    requires k.Some? ==> k.value < |valid|
  {
    k.Some? ==> !Extend(u, valid[..k.value]).dangling
  }

  /** The first quote is taken as the closing one, and no escape dangles before it. */
  lemma ContinueStops(p: Parser, valid: Bytes, invalid: Bytes, q: nat)
    requires p.current.Some? && FirstQuote(valid) == Some(q) && !TakenAsEscaped(p.current.value.dangling, valid, q)
    ensures CloseAt(p.current.value.dangling, valid) == Some(q) && NothingDangles(p.current.value, valid, Some(q))
    ensures Continue(p, valid, invalid) == Ended(p, valid, invalid, Some(q))
  {
    var u := p.current.value;
    if Extend(u, valid[..q]).dangling {
      EscapedIsTakenAsEscaped(u.dangling, valid, q);
    }
  }

  /** Inside a literal the parser ends it at `CloseAt`, and there never is a dangling escape. */
  lemma {:induction false} ContinueClosesAt(p: Parser, valid: Bytes, invalid: Bytes)
    requires p.current.Some?
    ensures Continue(p, valid, invalid) == Ended(p, valid, invalid, CloseAt(p.current.value.dangling, valid))
    ensures NothingDangles(p.current.value, valid, CloseAt(p.current.value.dangling, valid))
    decreases |valid|
  {
    var u, f := p.current.value, FirstQuote(valid);
    if f.Some? {
      var q := f.value;
      if TakenAsEscaped(u.dangling, valid, q) {
        ContinueClosesAt(p.(current := Some(Extend(u, valid[..q + 1]))), valid[q + 1..], invalid);
        SkipEnds(p, valid, invalid, q);
      } else {
        ContinueStops(p, valid, invalid, q);
      }
    }
  }

  lemma SkipEnds(p: Parser, valid: Bytes, invalid: Bytes, q: nat)
    requires p.current.Some? && FirstQuote(valid) == Some(q) && TakenAsEscaped(p.current.value.dangling, valid, q)
    requires var v, tail := Extend(p.current.value, valid[..q + 1]), valid[q + 1..];
             && Continue(p.(current := Some(v)), tail, invalid) == Ended(p.(current := Some(v)), tail, invalid, CloseAt(v.dangling, tail))
             && NothingDangles(v, tail, CloseAt(v.dangling, tail))
    ensures Continue(p, valid, invalid) == Ended(p, valid, invalid, CloseAt(p.current.value.dangling, valid))
    ensures NothingDangles(p.current.value, valid, CloseAt(p.current.value.dangling, valid))
  {
    ContinueSkips(p, valid, invalid, q);
    EndedBehind(p, valid, q + 1, invalid, CloseAt(Extend(p.current.value, valid[..q + 1]).dangling, valid[q + 1..]));
  }

  lemma EndedBehind(p: Parser, valid: Bytes, n: nat, invalid: Bytes, k: Option<nat>)
    requires p.current.Some? && n <= |valid| && (k.Some? ==> n + k.value < |valid|)
    ensures var v := Extend(p.current.value, valid[..n]);
            && Ended(p.(current := Some(v)), valid[n..], invalid, k) == Ended(p, valid, invalid, Shift(n, k))
            && (NothingDangles(v, valid[n..], k) <==> NothingDangles(p.current.value, valid, Shift(n, k)))
  {
    var u, head, tail := p.current.value, valid[..n], valid[n..];
    if k.None? {
      ExtendPieces(u, head, tail);
      assert valid == head + tail;
    } else {
      ExtendPieces(u, head, tail[..k.value]);
      assert valid[..n + k.value] == head + tail[..k.value];
      assert valid[n + k.value + 1..] == tail[k.value + 1..];
    }
  }

  lemma ExtendPieces(u: Unescaped, s: Bytes, t: Bytes)
    ensures Extend(u, s + t) == Extend(Extend(u, s), t)
  {
    UnescapePieces(u.dangling, s, t);
    var a := Unescape(u.dangling, s);
    var b := Unescape(a.dangling, t);
    assert u.bytes + (a.bytes + b.bytes) == (u.bytes + a.bytes) + b.bytes;
  }

  // ----- Nothing is lost -----

  /** The texts joined by placeholders. */
  function WithMarks(texts: seq<Bytes>): Bytes
    requires texts != []
  {
    if |texts| == 1 then texts[0] else WithMarks(texts[..|texts| - 1]) + [MARK] + texts[|texts| - 1]
  }

  /** The texts joined by the raw literals in quotes. */
  function WithLiterals(texts: seq<Bytes>, raws: seq<Bytes>): Bytes
    requires |texts| == |raws| + 1
  {
    if raws == [] then texts[0]
    else
      var n := |raws| - 1;
      WithLiterals(texts[..n + 1], raws[..n]) + [QUOTE] + raws[n] + [QUOTE] + texts[n + 1]
  }

  ghost predicate UnescapeTo(raws: seq<Bytes>, params: seq<Bytes>) {
    |raws| == |params| && forall i | 0 <= i < |raws| :: Unescape(false, raws[i]) == Unescaped(params[i], false)
  }

  /** How the parser got here: texts, finished raw literals, and the raw literal being read. */
  datatype History = History(texts: seq<Bytes>, raws: seq<Bytes>, open: Bytes)

  ghost predicate Explains(h: History, p: Parser, consumed: Bytes) {
    && |h.texts| == |h.raws| + 1
    && UnescapeTo(h.raws, p.params)
    && (p.current.None? ==> p.res == WithMarks(h.texts) && consumed == WithLiterals(h.texts, h.raws))
    && (p.current.Some? ==>
          && p.res == WithMarks(h.texts) + [MARK]
          && consumed == WithLiterals(h.texts, h.raws) + [QUOTE] + h.open
          && p.current.value == Unescape(false, h.open))
  }

  function AppendLast(texts: seq<Bytes>, s: Bytes): seq<Bytes>
    requires texts != []
  {
    texts[|texts| - 1 := texts[|texts| - 1] + s]
  }

  lemma AppendingText(texts: seq<Bytes>, raws: seq<Bytes>, s: Bytes)
    requires |texts| == |raws| + 1
    ensures WithMarks(AppendLast(texts, s)) == WithMarks(texts) + s
    ensures WithLiterals(AppendLast(texts, s), raws) == WithLiterals(texts, raws) + s
  {
    var n := |raws|;
    var t := AppendLast(texts, s);
    assert t[..n] == texts[..n];
    if n > 0 {
      var head := WithMarks(texts[..n]) + [MARK];
      assert head + (texts[n] + s) == (head + texts[n]) + s;
      var whole := WithLiterals(texts[..n], raws[..n - 1]) + [QUOTE] + raws[n - 1] + [QUOTE];
      assert whole + (texts[n] + s) == (whole + texts[n]) + s;
    }
  }

  /** Opening a literal: `text` stays text, `raw` is read as the beginning of the literal. */
  lemma OpenExplained(h: History, p: Parser, consumed: Bytes, text: Bytes, raw: Bytes)
    requires Explains(h, p, consumed) && p.current.None?
    ensures Explains(History(AppendLast(h.texts, text), h.raws, raw),
                     p.(res := p.res + text + [MARK], current := Some(Unescape(false, raw))),
                     consumed + text + [QUOTE] + raw)
  {
    AppendingText(h.texts, h.raws, text);
  }

  lemma StartExplained(h: History, p: Parser, consumed: Bytes, valid: Bytes, invalid: Bytes) returns (g: History)
    requires Explains(h, p, consumed) && p.current.None? && Start(p, valid, invalid).Ok?
    ensures Explains(g, Start(p, valid, invalid).value, consumed + (valid + invalid))
  {
    if invalid == [] {
      g := h.(texts := AppendLast(h.texts, valid));
      AppendingText(h.texts, h.raws, valid);
      assert valid + invalid == valid;
    } else {
      var q := LastQuote(valid).value;
      var text, rest := valid[..q], valid[q + 1..];
      var raw := rest + invalid;
      g := History(AppendLast(h.texts, text), h.raws, raw);
      OpenExplained(h, p, consumed, text, raw);
      ExtendPieces(Unescaped([], false), rest, invalid);
      assert Unescape(false, raw) == Extend(Unescaped([], false), raw);
      assert consumed + text + [QUOTE] + raw == consumed + (valid + invalid);
    }
  }

  lemma ExtendOpen(open: Bytes, s: Bytes)
    ensures Unescape(false, open + s) == Extend(Unescape(false, open), s)
  {
    UnescapePieces(false, open, s);
  }

  /** Closing the literal being read. */
  lemma CloseExplained(h: History, p: Parser, consumed: Bytes, s: Bytes) returns (g: History)
    requires Explains(h, p, consumed) && p.current.Some? && !Extend(p.current.value, s).dangling
    ensures Explains(g, Parser(p.res, p.params + [Extend(p.current.value, s).bytes], None), consumed + s + [QUOTE])
  {
    var raw := h.open + s;
    ExtendOpen(h.open, s);
    g := History(h.texts + [[]], h.raws + [raw], []);
    var n := |h.raws|;
    assert g.texts[..n + 1] == h.texts && g.raws[..n] == h.raws;
    assert WithMarks(g.texts) == WithMarks(h.texts) + [MARK] + [];
    assert WithLiterals(g.texts, g.raws) == WithLiterals(h.texts, h.raws) + [QUOTE] + raw + [QUOTE] + [];
    assert consumed + s + [QUOTE] == WithLiterals(h.texts, h.raws) + [QUOTE] + raw + [QUOTE];
  }

  /** The whole chunk belongs to the literal being read. */
  lemma ReadExplained(h: History, p: Parser, consumed: Bytes, s: Bytes)
    requires Explains(h, p, consumed) && p.current.Some?
    ensures Explains(h.(open := h.open + s), p.(current := Some(Extend(p.current.value, s))), consumed + s)
  {
    ExtendOpen(h.open, s);
    var before := WithLiterals(h.texts, h.raws) + [QUOTE];
    assert (before + h.open) + s == before + (h.open + s);
  }

  /** The literal being read ends before position k of the chunk. */
  lemma EndExplained(h: History, p: Parser, consumed: Bytes, c: Chunk, k: nat) returns (g: History)
    requires Explains(h, p, consumed) && p.current.Some? && k < |c.valid| && c.valid[k] == QUOTE
    requires Continue(p, c.valid, c.invalid).Ok? && NothingDangles(p.current.value, c.valid, Some(k))
    requires Continue(p, c.valid, c.invalid) == Ended(p, c.valid, c.invalid, Some(k))
    ensures Explains(g, Continue(p, c.valid, c.invalid).value, consumed + (c.valid + c.invalid))
  {
    var head, tail := c.valid[..k], c.valid[k + 1..];
    var mid := CloseExplained(h, p, consumed, head);
    var q := Parser(p.res, p.params + [Extend(p.current.value, head).bytes], None);
    g := StartExplained(mid, q, consumed + head + [QUOTE], tail, c.invalid);
    CutAround(consumed, c.valid, k, c.invalid);
  }

  lemma CutAround(before: Bytes, s: Bytes, k: nat, after: Bytes)
    requires k < |s| && s[k] == QUOTE
    ensures before + s[..k] + [QUOTE] + (s[k + 1..] + after) == before + (s + after)
  {
    assert s == s[..k] + [QUOTE] + s[k + 1..];
  }

  lemma AddExplained(h: History, p: Parser, consumed: Bytes, c: Chunk) returns (g: History)
    requires Explains(h, p, consumed) && Add(p, c).Ok?
    ensures Explains(g, Add(p, c).value, consumed + (c.valid + c.invalid))
  {
    if p.current.None? {
      g := StartExplained(h, p, consumed, c.valid, c.invalid);
    } else {
      ContinueClosesAt(p, c.valid, c.invalid);
      var u, k := p.current.value, CloseAt(p.current.value.dangling, c.valid);
      if k.None? {
        ExtendPieces(u, c.valid, c.invalid);
        ReadExplained(h, p, consumed, c.valid + c.invalid);
        g := h.(open := h.open + (c.valid + c.invalid));
      } else {
        g := EndExplained(h, p, consumed, c, k.value);
      }
    }
  }

  function BytesOf(chunks: seq<Chunk>): Bytes {
    if chunks == [] then []
    else BytesOf(chunks[..|chunks| - 1]) + (chunks[|chunks| - 1].valid + chunks[|chunks| - 1].invalid)
  }

  lemma {:induction false} AddAllExplained(chunks: seq<Chunk>) returns (h: History)
    requires AddAll(chunks).Ok?
    ensures Explains(h, AddAll(chunks).value, BytesOf(chunks))
  {
    if chunks == [] {
      h := History([[]], [], []);
    } else {
      var last := |chunks| - 1;
      var g := AddAllExplained(chunks[..last]);
      h := AddExplained(g, AddAll(chunks[..last]).value, BytesOf(chunks[..last]), chunks[last]);
    }
  }

  /**
    For every cut into chunks, a finished extraction is lossless: the rewritten query with every
    inserted placeholder replaced by its raw literal in quotes is the original query, and each
    parameter is its raw literal unescaped.
   */
  lemma ExtractionIsLossless(chunks: seq<Chunk>) returns (texts: seq<Bytes>, raws: seq<Bytes>)
    requires AddAll(chunks).Ok? && AddAll(chunks).value.current.None?
    ensures |texts| == |raws| + 1
    ensures BytesOf(chunks) == WithLiterals(texts, raws)
    ensures AddAll(chunks).value.res == WithMarks(texts)
    ensures UnescapeTo(raws, AddAll(chunks).value.params)
  {
    var h := AddAllExplained(chunks);
    texts, raws := h.texts, h.raws;
  }

  // ----- The parser object -----

  class ParserState {
    var res: Bytes
    var params: seq<Bytes>
    var current: AutoEscapeVec?

    constructor ()
      ensures View() == Parser([], [], None) && current == null
    {
      res, params, current := [], [], null;
    }

    ghost function View(): Parser
      reads this, current
    {
      Parser(res, params, if current == null then None else Some(current.View()))
    }

    method AddChunk(c: Chunk) returns (ok: bool)
      modifies this, current
      ensures ok <==> Add(old(View()), c).Ok?
      ensures ok ==> View() == Add(old(View()), c).value
      ensures fresh(current) || current == null || current == old(current)
    {
      if current == null {
        ok := AddChunkStart(c.valid, c.invalid);
      } else {
        ok := AddChunkContinue(c.valid, c.invalid);
      }
    }

    method AddChunkStart(valid: Bytes, invalid: Bytes) returns (ok: bool)
      requires current == null
      modifies this
      ensures ok <==> Start(old(View()), valid, invalid).Ok?
      ensures ok ==> View() == Start(old(View()), valid, invalid).value
      ensures fresh(current) || current == null
    {
      if invalid == [] {
        res := res + valid;
        return true;
      }
      var position := LastQuote(valid);
      if position.None? {
        return false;
      }
      res := res + valid[..position.value] + [MARK];
      var output := new AutoEscapeVec();
      output.ExtendUnescape(valid[position.value + 1..]);
      output.ExtendUnescape(invalid);
      current := output;
      return true;
    }

    method AddChunkContinue(valid: Bytes, invalid: Bytes) returns (ok: bool)
      requires current != null
      modifies this, current
      ensures ok <==> Continue(old(View()), valid, invalid).Ok?
      ensures ok ==> View() == Continue(old(View()), valid, invalid).value
      ensures fresh(current) || current == null || current == old(current)
      decreases |valid|
    {
      var quote := FirstQuote(valid);
      if quote.None? {
        current.ExtendUnescape(valid);
        current.ExtendUnescape(invalid);
        return true;
      }
      var position := quote.value;
      if position > 0 && valid[position - 1] == ESCAPE {
        current.ExtendUnescape(valid[..position + 1]);
        ok := AddChunkContinue(valid[position + 1..], invalid);
        return;
      } else if position == 0 && current.hasDanglingEscape {
        current.ExtendUnescape([QUOTE]);
        ok := AddChunkContinue(valid[1..], invalid);
        return;
      }
      current.ExtendUnescape(valid[..position]);
      if current.hasDanglingEscape {
        return false;
      }
      params := params + [current.inner];
      current := null;
      ok := AddChunkStart(valid[position + 1..], invalid);
    }
  }

  /** Borrowed: the query is valid as it stands. Rewritten: text with placeholders, and the parameters. */
  datatype Extraction = Borrowed(query: Bytes) | Rewritten(query: Bytes, params: seq<Bytes>)

  /** Only the last chunk of a byte string can lack invalid bytes. */
  predicate WellCut(chunks: seq<Chunk>) {
    forall i | 0 <= i < |chunks| - 1 :: chunks[i].invalid != []
  }

  method ExtractInvalidBytes(chunks: seq<Chunk>) returns (r: Result<Extraction>)
    requires WellCut(chunks)
    ensures r.Ok? && r.value.Borrowed? ==> r.value.query == BytesOf(chunks)
    ensures r.Ok? && r.value.Rewritten? ==> exists texts: seq<Bytes>, raws: seq<Bytes> ::
              && |texts| == |raws| + 1
              && BytesOf(chunks) == WithLiterals(texts, raws)
              && r.value.query == WithMarks(texts)
              && UnescapeTo(raws, r.value.params)
    ensures r.Err? <==> |chunks| > 0 && chunks[0].invalid != [] && (AddAll(chunks).Err? || AddAll(chunks).value.current.Some?)
    ensures r.Ok? && r.value.Rewritten? ==>
              AddAll(chunks) == Ok(Parser(r.value.query, r.value.params, None))
  {
    if chunks == [] {
      return Ok(Borrowed([]));
    }
    if chunks[0].invalid == [] {
      assert chunks == [chunks[0]] && chunks[..0] == [];
      return Ok(Borrowed(chunks[0].valid));
    }
    var state := new ParserState();
    for i := 0 to |chunks|
      invariant fresh(state) && (state.current == null || fresh(state.current))
      invariant AddAll(chunks[..i]) == Ok(state.View())
    {
      assert chunks[..i + 1][..i] == chunks[..i];
      var ok := state.AddChunk(chunks[i]);
      if !ok {
        AddAllFails(chunks, i + 1);
        return Err("failed to parse binary chunks in query");
      }
    }
    assert chunks[..|chunks|] == chunks;
    if state.current != null {
      return Err("unterminated chunk");
    }
    var texts, raws := ExtractionIsLossless(chunks);
    return Ok(Rewritten(state.res, state.params));
  }

  lemma {:induction false} AddAllFails(chunks: seq<Chunk>, n: nat)
    requires n <= |chunks| && AddAll(chunks[..n]).Err?
    ensures AddAll(chunks).Err?
  {
    if n == |chunks| {
      assert chunks[..n] == chunks;
    } else {
      assert chunks[..|chunks| - 1][..n] == chunks[..n];
      AddAllFails(chunks[..|chunks| - 1], n);
    }
  }
}
