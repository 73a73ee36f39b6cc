/** The challenge solver: the scanning done when the solver is created, the
    seed declaration, the statement chain and the final answer. The functions
    say what each step computes; the class keeps the solver's fields and its
    methods update them step by step. */
module Solver {
  import opened Strings
  import opened Failures
  import opened Decoding

  /** The magic keyword that precedes the seed declaration (26 characters). */
  const Marker := "s,t,o,p,b,r,e,a,k,i,n,g,f,"

  /** The text before the jschl_vc value (23 characters). */
  const JschlVcNeedle := "name=\"jschl_vc\" value=\""

  /** The text before the pass value (19 characters). */
  const PassNeedle := "name=\"pass\" value=\""

  lemma NeedleLengths()
    ensures |Marker| == 26 && |JschlVcNeedle| == 23 && |PassNeedle| == 19
  {
  }

  /** Where `GetExpression` leaves the cursor: one past the next ';' at or after
      `p`, or 0 when there is none (IndexOf's -1, plus one). */
  function TerminatorEnd(page: string, p: nat): (e: nat)
    requires p <= |page|
    ensures e <= |page| && (e > 0 ==> p < e)
  {
    match IndexOf(page, ";", p)
    case None => 0
    case Some(i) => i + 1
  }

  /** The cursor is 0 exactly when no ';' follows `p`; otherwise it is just
      past the first one. */
  lemma {:induction false} TerminatorEndChar(page: string, p: nat)
    requires p <= |page|
    ensures var e := TerminatorEnd(page, p);
      (e == 0 <==> NoCharFrom(page, ';', p)) &&
      (e > 0 ==> page[e - 1] == ';' && forall i :: p <= i < e - 1 ==> page[i] != ';')
  {
    IndexOfChar(page, ';', p);
  }

  /** `GetExpression(p)`: the trimmed text from `p` up to and including the next
      ';'. Without a ';' the substring length is negative, an error, except at
      p == 0 where it is the empty text. */
  function NextExpression(page: string, p: nat): (r: Result<string>)
    requires p <= |page|
    ensures r.Err? <==> p > 0 && TerminatorEnd(page, p) == 0
    ensures r.Err? ==> r.failure == Truncated
  {
    var e := TerminatorEnd(page, p);
    if e < p then Err(Truncated) else Ok(Trim(page[p..e]))
  }

  /** Reading a statement fails exactly when the cursor is past the start
      and no ';' follows it; otherwise it is the trimmed text up to and
      including that ';', or the empty text at the start of a page without
      one. */
  lemma {:induction false} NextExpressionFails(page: string, p: nat)
    requires p <= |page|
    ensures var r := NextExpression(page, p);
      (r.Err? <==> p > 0 && NoCharFrom(page, ';', p)) &&
      (r.Ok? && p > 0 ==> TerminatorEnd(page, p) > p && r.value == Trim(page[p..TerminatorEnd(page, p)])) &&
      (r.Ok? && p == 0 && TerminatorEnd(page, 0) == 0 ==> r.value == [])
  {
    TerminatorEndChar(page, p);
  }

  /** A delimited text and the index of the character that closes it. */
  datatype Span = Span(value: string, close: nat)

  /** `sp` is the text after the first `needle` at or after `from`, up to the
      first `closer` after that needle. */
  ghost predicate Found(s: string, needle: string, closer: char, from: nat, sp: Span) {
    var start := sp.close - |sp.value|;
    from + |needle| <= start <= sp.close < |s| &&
    MatchAt(s, needle, start - |needle|) &&
    (forall i: nat :: from <= i < start - |needle| ==> !MatchAt(s, needle, i)) &&
    s[start..sp.close] == sp.value && s[sp.close] == closer && closer !in sp.value
  }

  /** The source's recurring scan `i = IndexOf(needle, from) + |needle|;
      j = IndexOf(closer, i); Substring(i, j - i)`, with its two failures. */
  function Delimited(s: string, needle: string, closer: char, from: nat, notFound: Failure, unclosed: Failure): (r: Result<Span>)
    requires from <= |s|
    ensures r.Err? ==> r == Err(notFound) || r == Err(unclosed)
    ensures r.Ok? ==> from + |needle| + |r.value.value| <= r.value.close < |s|
  {
    match IndexOf(s, needle, from)
    case None => Err(notFound)
    case Some(i) =>
      var start := i + |needle|;
      match IndexOf(s, [closer], start)
      case None => Err(unclosed)
      case Some(close) => Ok(Span(s[start..close], close))
  }

  /** A scan that succeeds read the text between the first `needle` and the
      next `closer`. */
  lemma DelimitedFound(s: string, needle: string, closer: char, from: nat, notFound: Failure, unclosed: Failure)
    requires from <= |s| && Delimited(s, needle, closer, from, notFound, unclosed).Ok?
    ensures Found(s, needle, closer, from, Delimited(s, needle, closer, from, notFound, unclosed).value)
  {
    IndexOfFirst(s, needle, from);
    var i := IndexOf(s, needle, from).value;
    var start := i + |needle|;
    IndexOfChar(s, closer, start);
    var close := IndexOf(s, [closer], start).value;
    assert closer !in s[start..close] by {
      forall k | 0 <= k < close - start ensures s[start..close][k] != closer {
      }
    }
  }

  /** A scan fails for want of the needle exactly when there is none from
      `from` on, and for want of the closer only when none follows the needle. */
  lemma DelimitedFails(s: string, needle: string, closer: char, from: nat, notFound: Failure, unclosed: Failure)
    requires from <= |s| && notFound != unclosed
    ensures var r := Delimited(s, needle, closer, from, notFound, unclosed);
      (r == Err(notFound) <==> forall i: nat :: from <= i ==> !MatchAt(s, needle, i)) &&
      (r == Err(unclosed) ==> NoCharFrom(s, closer, IndexOf(s, needle, from).value + |needle|))
  {
    IndexOfFirst(s, needle, from);
    if IndexOf(s, needle, from).Some? {
      IndexOfChar(s, closer, IndexOf(s, needle, from).value + |needle|);
    }
  }
  /** For a one-character needle: the scan fails for want of it exactly when
      it does not occur from `from` on, and for want of the closer exactly
      when the closer does not occur after the needle. */
  lemma {:induction false} DelimitedCharFails(s: string, c: char, closer: char, from: nat, notFound: Failure, unclosed: Failure)
    requires from <= |s| && notFound != unclosed
    ensures Delimited(s, [c], closer, from, notFound, unclosed) == Err(notFound) <==> NoCharFrom(s, c, from)
    ensures var open := IndexOf(s, [c], from);
      Delimited(s, [c], closer, from, notFound, unclosed) == Err(unclosed) <==>
        open.Some? && NoCharFrom(s, closer, open.value + 1)
  {
    IndexOfChar(s, c, from);
    var open := IndexOf(s, [c], from);
    if open.Some? {
      IndexOfChar(s, closer, open.value + 1);
    }
  }


  /** The scan as the source performs it, one IndexOf after the other. */
  method Scan(s: string, needle: string, closer: char, from: nat, notFound: Failure, unclosed: Failure)
    returns (r: Result<Span>)
    requires from <= |s|
    ensures r == Delimited(s, needle, closer, from, notFound, unclosed)
  {
    var myIndex := IndexOf(s, needle, from);
    if myIndex.None? {
      return Err(notFound);
    }
    var valueStart := myIndex.value + |needle|;
    var myEndIndex := IndexOf(s, [closer], valueStart);
    if myEndIndex.None? {
      return Err(unclosed);
    }
    r := Ok(Span(s[valueStart..myEndIndex.value], myEndIndex.value));
  }

  /** What `ParseObject` finds in the seed declaration: the object name, the
      member name between quotes, the initial value text between ':' and '}',
      its decoded value and the operator token read from it. */
  datatype Seed = Seed(objectName: string, member: Span, init: Span, value: nat, token: string)
  {
    function MemberName(): string { member.value }
    function Combined(): string { objectName + "." + member.value }
  }

  /** The failures reading a seed declaration can end in. */
  predicate SeedFailure(f: Failure) {
    f in {MissingEquals, MissingOpeningQuote, MissingClosingQuote, MissingColon, MissingClosingBrace, ExpressionTooShort}
  }

  /** The seed declaration `name={"member":value}` as `ParseObject` reads it:
      the object name, the member name and the initial value lie in that
      order in the text, and the initial value is the decoding of its text
      with the combined identifier. */
  function SeedOf(expr: string): (r: Result<Seed>)
    ensures r.Err? ==> SeedFailure(r.failure)
    ensures r.Ok? ==> |r.value.objectName| < r.value.member.close < r.value.init.close < |expr|
    ensures r.Ok? ==> Decode(r.value.init.value, r.value.Combined()) == Ok(Decoded(r.value.token, r.value.value))
  {
    match IndexOf(expr, "=", 0)
    case None => Err(MissingEquals)
    case Some(nameEnd) =>
      var name := expr[..nameEnd];
      match Delimited(expr, "\"", '"', nameEnd, MissingOpeningQuote, MissingClosingQuote)
      case Err(f) => Err(f)
      case Ok(member) =>
        match Delimited(expr, ":", '}', member.close, MissingColon, MissingClosingBrace)
        case Err(f) => Err(f)
        case Ok(init) => SeedFrom(name, member, init)
  }

  /** Without an '=' there is no seed declaration. */
  lemma {:induction false} SeedOfMissingEquals(expr: string)
    ensures NoCharFrom(expr, '=', 0) <==> SeedOf(expr) == Err(MissingEquals)
  {
    IndexOfChar(expr, '=', 0);
  }

  /** After the first '=' at `nameEnd`, the first part of the declaration
      that is missing names the failure: the '"' that opens the member name,
      the '"' that closes it, the ':' after it, the '}' after that. */
  lemma {:induction false} SeedOfFails(expr: string, nameEnd: nat)
    requires IndexOf(expr, "=", 0) == Some(nameEnd)
    ensures SeedOf(expr) == Err(MissingOpeningQuote) <==> NoCharFrom(expr, '"', nameEnd)
    ensures var open := IndexOf(expr, "\"", nameEnd);
      SeedOf(expr) == Err(MissingClosingQuote) <==> open.Some? && NoCharFrom(expr, '"', open.value + 1)
    ensures var member := Delimited(expr, "\"", '"', nameEnd, MissingOpeningQuote, MissingClosingQuote);
      SeedOf(expr) == Err(MissingColon) <==> member.Ok? && NoCharFrom(expr, ':', member.value.close)
    ensures var member := Delimited(expr, "\"", '"', nameEnd, MissingOpeningQuote, MissingClosingQuote);
      SeedOf(expr) == Err(MissingClosingBrace) <==>
        member.Ok? && IndexOf(expr, ":", member.value.close).Some? &&
        NoCharFrom(expr, '}', IndexOf(expr, ":", member.value.close).value + 1)
  {
    SeedOfMemberFails(expr, nameEnd);
    SeedOfValueFails(expr, nameEnd);
  }

  /** The member-name half of `SeedOfFails`. */
  lemma {:induction false} SeedOfMemberFails(expr: string, nameEnd: nat)
    requires IndexOf(expr, "=", 0) == Some(nameEnd)
    ensures SeedOf(expr) == Err(MissingOpeningQuote) <==> NoCharFrom(expr, '"', nameEnd)
    ensures var open := IndexOf(expr, "\"", nameEnd);
      SeedOf(expr) == Err(MissingClosingQuote) <==> open.Some? && NoCharFrom(expr, '"', open.value + 1)
  {
    SeedOfMemberStage(expr, nameEnd);
    DelimitedCharFails(expr, '"', '"', nameEnd, MissingOpeningQuote, MissingClosingQuote);
  }

  /** A failed member scan is the declaration's failure; after a member is
      found, only the later parts can fail. */
  lemma {:induction false} SeedOfMemberStage(expr: string, nameEnd: nat)
    requires IndexOf(expr, "=", 0) == Some(nameEnd)
    ensures var member := Delimited(expr, "\"", '"', nameEnd, MissingOpeningQuote, MissingClosingQuote);
      (member.Err? ==> SeedOf(expr) == Err(member.failure)) &&
      (member.Ok? && SeedOf(expr).Err? ==> SeedOf(expr).failure in {MissingColon, MissingClosingBrace, ExpressionTooShort})
  {
    var member := Delimited(expr, "\"", '"', nameEnd, MissingOpeningQuote, MissingClosingQuote);
    if member.Ok? {
      SeedOfValueStage(expr, nameEnd, member.value);
    }
  }

  /** Once the member is found, the initial-value scan decides the rest. */
  lemma {:induction false} SeedOfValueStage(expr: string, nameEnd: nat, member: Span)
    requires IndexOf(expr, "=", 0) == Some(nameEnd)
    requires Delimited(expr, "\"", '"', nameEnd, MissingOpeningQuote, MissingClosingQuote) == Ok(member)
    ensures var init := Delimited(expr, ":", '}', member.close, MissingColon, MissingClosingBrace);
      SeedOf(expr) == if init.Err? then Err(init.failure) else SeedFrom(expr[..nameEnd], member, init.value)
  {
  }

  /** The initial-value half of `SeedOfFails`. */
  lemma {:induction false} SeedOfValueFails(expr: string, nameEnd: nat)
    requires IndexOf(expr, "=", 0) == Some(nameEnd)
    ensures var member := Delimited(expr, "\"", '"', nameEnd, MissingOpeningQuote, MissingClosingQuote);
      SeedOf(expr) == Err(MissingColon) <==> member.Ok? && NoCharFrom(expr, ':', member.value.close)
    ensures var member := Delimited(expr, "\"", '"', nameEnd, MissingOpeningQuote, MissingClosingQuote);
      SeedOf(expr) == Err(MissingClosingBrace) <==>
        member.Ok? && IndexOf(expr, ":", member.value.close).Some? &&
        NoCharFrom(expr, '}', IndexOf(expr, ":", member.value.close).value + 1)
  {
    var member := Delimited(expr, "\"", '"', nameEnd, MissingOpeningQuote, MissingClosingQuote);
    if member.Ok? {
      SeedOfValueStage(expr, nameEnd, member.value);
      DelimitedCharFails(expr, ':', '}', member.value.close, MissingColon, MissingClosingBrace);
    }
  }

  /** A seed declaration that parses has the object name before its first
      '=', the member name between the first two '"' after that, and an
      initial value that is the decoding of the text between the next ':' and
      the first '}' after it; the combined identifier joins the two names with
      a '.'. */
  lemma SeedLayout(expr: string)
    requires SeedOf(expr).Ok?
    ensures var sd := SeedOf(expr).value;
      |sd.objectName| < |expr| && expr[..|sd.objectName|] == sd.objectName &&
      expr[|sd.objectName|] == '=' && '=' !in sd.objectName &&
      Found(expr, "\"", '"', |sd.objectName|, sd.member) &&
      Found(expr, ":", '}', sd.member.close, sd.init) &&
      sd.Combined() == sd.objectName + "." + sd.MemberName() &&
      Decode(sd.init.value, sd.Combined()) == Ok(Decoded(sd.token, sd.value))
  {
    IndexOfChar(expr, '=', 0);
    var nameEnd := IndexOf(expr, "=", 0).value;
    assert '=' !in expr[..nameEnd] by {
      forall k | 0 <= k < nameEnd ensures expr[..nameEnd][k] != '=' { }
    }
    DelimitedFound(expr, "\"", '"', nameEnd, MissingOpeningQuote, MissingClosingQuote);
    var member := Delimited(expr, "\"", '"', nameEnd, MissingOpeningQuote, MissingClosingQuote).value;
    DelimitedFound(expr, ":", '}', member.close, MissingColon, MissingClosingBrace);
  }

  /** The seed once its three parts are found: the initial value decoded
      with the combined identifier. */
  function SeedFrom(name: string, member: Span, init: Span): (r: Result<Seed>)
    ensures r.Err? ==> r.failure == ExpressionTooShort
    ensures r.Ok? ==> (r.value.objectName == name && r.value.member == member && r.value.init == init &&
      Decode(init.value, r.value.Combined()) == Ok(Decoded(r.value.token, r.value.value)))
  {
    match Decode(init.value, name + "." + member.value)
    case Err(f) => Err(f)
    case Ok(d) => Ok(Seed(name, member, init, d.operand, d.token))
  }

  /** Once the '=' and both delimited parts are found, the seed is those
      parts with the initial value decoded. */
  lemma SeedOfParts(expr: string, nameEnd: nat, member: Span, init: Span)
    requires IndexOf(expr, "=", 0) == Some(nameEnd)
    requires Delimited(expr, "\"", '"', nameEnd, MissingOpeningQuote, MissingClosingQuote) == Ok(member)
    requires Delimited(expr, ":", '}', member.close, MissingColon, MissingClosingBrace) == Ok(init)
    ensures SeedOf(expr) == SeedFrom(expr[..nameEnd], member, init)
  {
  }

  /** The solver's state once created: the cursor at the identifier's next
      occurrence, the seed, and the two attribute values. */
  datatype Loaded = Loaded(markerEnd: nat, cursor: nat, seed: Seed, jschlVc: Span, pass: Span)

  /** The two attribute scans: jschl_vc from `from`, pass from jschl_vc's
      closing quote, so both lie in the page in that order; each can fail for
      want of its needle or of its closing quote. */
  function Attributes(page: string, from: nat): (r: Result<(Span, Span)>)
    requires from <= |page|
    ensures r.Err? ==> r.failure in {JschlVcNotFound, JschlVcUnclosed, PassNotFound, PassUnclosed}
    ensures r.Ok? ==>
      from + |JschlVcNeedle| + |r.value.0.value| <= r.value.0.close &&
      r.value.0.close + |PassNeedle| + |r.value.1.value| <= r.value.1.close < |page|
  {
    AfterJschlVc(page, Delimited(page, JschlVcNeedle, '"', from, JschlVcNotFound, JschlVcUnclosed))
  }

  function AfterJschlVc(page: string, vc: Result<Span>): (r: Result<(Span, Span)>)
    requires vc.Ok? ==> vc.value.close <= |page|
  {
    match vc
    case Err(f) => Err(f)
    case Ok(v) =>
      match Delimited(page, PassNeedle, '"', v.close, PassNotFound, PassUnclosed)
      case Err(f) => Err(f)
      case Ok(pass) => Ok((v, pass))
  }

  /** The seed statement read from `start`: the first statement there, read
      as the seed declaration. */
  function SeedAt(page: string, start: nat): (r: Result<Seed>)
    requires start <= |page|
  {
    match NextExpression(page, start)
    case Err(f) => Err(f)
    case Ok(first) => SeedOf(first)
  }

  /** The scanning the source does when a solver is created, stage by stage:
      the marker, the seed statement after it, the identifier's next
      occurrence, the two attributes. */
  function LoadSpec(page: string): (r: Result<Loaded>)
    ensures r.Err? ==> r.failure != DivideByZero
    ensures r.Ok? ==>
      |Marker| <= r.value.markerEnd < r.value.cursor &&
      r.value.cursor + |JschlVcNeedle| <= r.value.jschlVc.close < r.value.pass.close < |page|
  {
    NeedleLengths();
    AfterMarker(page, IndexOf(page, Marker, 0))
  }

  function AfterMarker(page: string, marker: Option<nat>): (r: Result<Loaded>)
    requires marker.Some? ==> marker.value + 26 <= |page|
  {
    match marker
    case None => Err(MarkerNotFound)
    case Some(m) => AfterSeed(page, m + 26, SeedAt(page, m + 26))
  }

  function AfterSeed(page: string, start: nat, seed: Result<Seed>): (r: Result<Loaded>)
    requires start <= |page|
  {
    match seed
    case Err(f) => Err(f)
    case Ok(sd) => AfterCursor(page, start, sd, IndexOf(page, sd.Combined(), TerminatorEnd(page, start)))
  }

  function AfterCursor(page: string, start: nat, sd: Seed, found: Option<nat>): (r: Result<Loaded>)
    requires found.Some? ==> found.value <= |page|
  {
    match found
    case None => Err(ExpressionNotFound)
    case Some(c) => AfterAttributes(start, c, sd, Attributes(page, c))
  }

  function AfterAttributes(start: nat, c: nat, sd: Seed, attributes: Result<(Span, Span)>): (r: Result<Loaded>) {
    match attributes
    case Err(f) => Err(f)
    case Ok(a) => Ok(Loaded(start, c, sd, a.0, a.1))
  }

  /** Creation after the marker: the seed statement decides the rest. */
  lemma {:induction false} LoadSeedStep(page: string, m: nat)
    requires IndexOf(page, Marker, 0) == Some(m)
    ensures m + 26 <= |page|
    ensures LoadSpec(page) == AfterSeed(page, m + 26, SeedAt(page, m + 26))
  {
    NeedleLengths();
  }

  /** Creation once the seed is read: the identifier's next occurrence and the
      attributes decide the rest. */
  lemma {:induction false} LoadCursorStep(page: string, start: nat, sd: Seed, found: Option<nat>)
    requires start <= |page| && found == IndexOf(page, sd.Combined(), TerminatorEnd(page, start))
    ensures found.Some? ==> found.value <= |page|
    ensures AfterSeed(page, start, Ok(sd)) == AfterCursor(page, start, sd, found)
  {
  }

  /** A creation that succeeds from `start` read the seed it reports and
      stopped at the identifier's next occurrence after the seed statement. */
  lemma {:induction false} SeedStage(page: string, start: nat, seed: Result<Seed>, l: Loaded)
    requires start <= |page| && AfterSeed(page, start, seed) == Ok(l)
    ensures seed == Ok(l.seed) && l.markerEnd == start
    ensures IndexOf(page, l.seed.Combined(), TerminatorEnd(page, start)) == Some(l.cursor)
  {
  }

  /** No stage after the marker reports the marker missing. */
  lemma {:induction false} SeedAtNotMarker(page: string, start: nat)
    requires start <= |page|
    ensures SeedAt(page, start) != Err(MarkerNotFound)
  {
  }

  lemma {:induction false} AfterSeedNotMarker(page: string, start: nat, seed: Result<Seed>)
    requires start <= |page| && seed != Err(MarkerNotFound)
    ensures AfterSeed(page, start, seed) != Err(MarkerNotFound)
  {
  }

  /** Creation fails for want of the marker exactly when the page does not
      contain it anywhere. */
  lemma {:induction false} LoadMarker(page: string)
    ensures (forall i: nat :: !MatchAt(page, Marker, i)) <==> LoadSpec(page) == Err(MarkerNotFound)
  {
    IndexOfFirst(page, Marker, 0);
    match IndexOf(page, Marker, 0)
    case None =>
    case Some(m) =>
      LoadSeedStep(page, m);
      SeedAtNotMarker(page, m + 26);
      AfterSeedNotMarker(page, m + 26, SeedAt(page, m + 26));
  }

  /** Where a created solver stands: right after the marker's first
      occurrence is the seed statement, and the cursor is at the START of the
      identifier's next occurrence after it, not past it. */
  ghost predicate Layout(page: string, l: Loaded) {
    l.markerEnd >= 26 && MatchAt(page, Marker, l.markerEnd - 26) &&
    (forall i: nat :: i < l.markerEnd - 26 ==> !MatchAt(page, Marker, i)) &&
    l.markerEnd < TerminatorEnd(page, l.markerEnd) <= l.cursor <= |page| &&
    SeedOf(Trim(page[l.markerEnd..TerminatorEnd(page, l.markerEnd)])) == Ok(l.seed) &&
    MatchAt(page, l.seed.Combined(), l.cursor) &&
    (forall i: nat :: TerminatorEnd(page, l.markerEnd) <= i < l.cursor ==> !MatchAt(page, l.seed.Combined(), i))
  }

  /** A created solver stands where `Layout` says. */
  lemma {:induction false} LoadLayout(page: string)
    requires LoadSpec(page).Ok?
    ensures Layout(page, LoadSpec(page).value)
  {
    var m := LoadStages(page);
    LoadLayoutFrom(page, m, LoadSpec(page).value);
  }

  /** What each stage of a successful creation found: the marker at `m`,
      the seed after it, the cursor after the seed statement. */
  lemma {:induction false} LoadStages(page: string) returns (m: nat)
    requires LoadSpec(page).Ok?
    ensures var l := LoadSpec(page).value;
      IndexOf(page, Marker, 0) == Some(m) && l.markerEnd == m + 26 <= |page| &&
      SeedAt(page, l.markerEnd) == Ok(l.seed) &&
      IndexOf(page, l.seed.Combined(), TerminatorEnd(page, l.markerEnd)) == Some(l.cursor)
  {
    m := IndexOf(page, Marker, 0).value;
    LoadSeedStep(page, m);
    SeedStage(page, m + 26, SeedAt(page, m + 26), LoadSpec(page).value);
  }

  /** `LoadLayout` from the facts each stage of creation establishes. */
  lemma {:induction false} LoadLayoutFrom(page: string, m: nat, l: Loaded)
    requires IndexOf(page, Marker, 0) == Some(m) && l.markerEnd == m + 26 <= |page|
    requires SeedAt(page, l.markerEnd) == Ok(l.seed)
    requires IndexOf(page, l.seed.Combined(), TerminatorEnd(page, l.markerEnd)) == Some(l.cursor)
    ensures Layout(page, l)
  {
    IndexOfFirst(page, Marker, 0);
    SeedAtRead(page, l.markerEnd, l.seed);
    IndexOfFirst(page, l.seed.Combined(), TerminatorEnd(page, l.markerEnd));
  }

  /** A seed read after the page's start is the declaration in the
      statement that ends at the next ';'. */
  lemma {:induction false} SeedAtRead(page: string, start: nat, sd: Seed)
    requires 0 < start <= |page| && SeedAt(page, start) == Ok(sd)
    ensures start < TerminatorEnd(page, start)
    ensures SeedOf(Trim(page[start..TerminatorEnd(page, start)])) == Ok(sd)
  {
    NextExpressionFails(page, start);
  }

  /** jschl_vc is the first such attribute from the cursor, and pass the
      first from jschl_vc's closing quote. */
  lemma LoadAttributes(page: string)
    requires LoadSpec(page).Ok?
    ensures var l := LoadSpec(page).value;
      l.cursor <= |page| &&
      Found(page, JschlVcNeedle, '"', l.cursor, l.jschlVc) &&
      Found(page, PassNeedle, '"', l.jschlVc.close, l.pass)
  {
    var l := LoadSpec(page).value;
    assert Attributes(page, l.cursor) == Ok((l.jschlVc, l.pass));
    DelimitedFound(page, JschlVcNeedle, '"', l.cursor, JschlVcNotFound, JschlVcUnclosed);
    DelimitedFound(page, PassNeedle, '"', l.jschlVc.close, PassNotFound, PassUnclosed);
  }

  /** The fields the statement loop reads and writes. */
  datatype Machine = Machine(cursor: nat, value: int, lastOperation: string, unknown: bool)

  /** Where the loop stopped, and the error that stopped it, if any. */
  datatype Halt = Halt(final: Machine, failure: Option<Failure>)

  lemma NormaliseEmpty(id: string)
    requires |id| > 0
    ensures Decode(Trim([]), id).Err?
  {
  }

  /** The `while (!isLastOperationUnknown)` loop of `Solve`: read a statement,
      decode it, apply it, until a statement has an unknown operator or a step
      fails. */
  function Run(page: string, id: string, m: Machine): (h: Halt)
    requires m.cursor <= |page| && |id| > 0
    ensures h.final.cursor <= |page|
    decreases |page| - m.cursor, !m.unknown
  {
    if m.unknown then Halt(m, None)
    else
      var e := TerminatorEnd(page, m.cursor);
      if e < m.cursor then Halt(m.(cursor := e), Some(Truncated))
      else
        NormaliseEmpty(id);
        match Decode(Trim(page[m.cursor..e]), id)
        case Err(f) => Halt(m.(cursor := e), Some(f))
        case Ok(d) =>
          var m1 := m.(cursor := e, lastOperation := d.token);
          match Perform(m1.value, d.token, d.operand)
          case Err(f) => Halt(m1, Some(f))
          case Ok(a) => Run(page, id, m1.(value := a.value, unknown := a.unknown))
  }

  /** One pass of the loop: a statement that ends at `e`, decodes to `d`
      and applies to `a` hands on to the loop from `e`. */
  lemma {:induction false} RunStep(page: string, id: string, m: Machine, e: nat, d: Decoded, a: Applied)
    requires m.cursor <= e <= |page| && |id| > 0 && !m.unknown
    requires TerminatorEnd(page, m.cursor) == e && Decode(Trim(page[m.cursor..e]), id) == Ok(d)
    requires Perform(m.value, d.token, d.operand) == Ok(a)
    ensures Run(page, id, m) == Run(page, id, Machine(e, a.value, d.token, a.unknown))
  {
  }

  /** Once the flag is up the loop does nothing more. */
  lemma {:induction false} RunHalted(page: string, id: string, m: Machine)
    requires m.cursor <= |page| && |id| > 0 && m.unknown
    ensures Run(page, id, m) == Halt(m, None)
  {
  }

  /** `Solve`: the loop, then the host name's length added once, and only when
      the loop ended without error, on a statement with an unknown operator;
      a failed loop is reported as it stopped. */
  function SolveSpec(page: string, id: string, hostLength: nat, m: Machine): (h: Halt)
    requires m.cursor <= |page| && |id| > 0
    ensures h.failure == Run(page, id, m).failure
    ensures h.failure.Some? ==> h == Run(page, id, m)
    ensures h.failure.None? ==>
      h.final.value == Run(page, id, m).final.value + hostLength &&
      h.final.unknown && m.cursor <= h.final.cursor &&
      (!m.unknown ==> m.cursor < h.final.cursor && !IsKnownOperator(h.final.lastOperation))
  {
    RunStops(page, id, m);
    var h := Run(page, id, m);
    if h.failure.None? then Halt(h.final.(value := h.final.value + hostLength), None) else h
  }

  /** A loop that ends without error ends on a statement with an unknown
      operator (or was already stopped), and every step advanced the cursor. */
  lemma {:induction false} RunStops(page: string, id: string, m: Machine)
    requires m.cursor <= |page| && |id| > 0
    ensures var h := Run(page, id, m);
      h.failure.None? ==> (h.final.unknown && m.cursor <= h.final.cursor &&
        (!m.unknown ==> m.cursor < h.final.cursor && !IsKnownOperator(h.final.lastOperation)))
    decreases |page| - m.cursor, !m.unknown
  {
    if !m.unknown {
      var e := TerminatorEnd(page, m.cursor);
      if e >= m.cursor {
        NormaliseEmpty(id);
        match Decode(Trim(page[m.cursor..e]), id)
        case Err(f) =>
        case Ok(d) =>
          var m1 := m.(cursor := e, lastOperation := d.token);
          match Perform(m1.value, d.token, d.operand)
          case Err(f) =>
          case Ok(a) => RunStops(page, id, m1.(value := a.value, unknown := a.unknown));
      }
    }
  }

  /** A statement without a ';' after it stops the loop with the cursor reset to 0. */
  lemma {:induction false} RunTruncatedResetsCursor(page: string, id: string, m: Machine)
    requires m.cursor <= |page| && |id| > 0
    ensures Run(page, id, m).failure == Some(Truncated) ==> Run(page, id, m).final.cursor == 0
    decreases |page| - m.cursor, !m.unknown
  {
    if !m.unknown {
      var e := TerminatorEnd(page, m.cursor);
      if e >= m.cursor {
        NormaliseEmpty(id);
        match Decode(Trim(page[m.cursor..e]), id)
        case Err(f) =>
        case Ok(d) =>
          var m1 := m.(cursor := e, lastOperation := d.token);
          match Perform(m1.value, d.token, d.operand)
          case Err(f) =>
          case Ok(a) => RunTruncatedResetsCursor(page, id, m1.(value := a.value, unknown := a.unknown));
      }
    }
  }

  class CloudFlareSolver {
    /** rawPageContent: the challenge page as fetched. */
    const page: string
    /** The length of the target URL's host name. */
    const hostLength: nat

    var stopBreakingIndex: nat
    var objectName: string
    var objectMemberName: string
    var objectCombinedName: string
    var jschlVc: string
    var pass: string
    var challengeValue: int
    var lastOperation: string
    var isLastOperationUnknown: bool

    /** The state the statement loop needs: a cursor inside the page and a
        known identifier. */
    ghost predicate Valid()
      reads this
    {
      stopBreakingIndex <= |page| && |objectCombinedName| > 0
    }

    ghost function State(): Machine
      reads this
    {
      Machine(stopBreakingIndex, challengeValue, lastOperation, isLastOperationUnknown)
    }

    /** The field initialisers; the scanning the source's constructor goes on
        to do is `Load`. Unset strings (null in the source) are empty. */
    constructor (page: string, hostLength: nat)
      ensures this.page == page && this.hostLength == hostLength
      ensures stopBreakingIndex == 0 && challengeValue == 0 && !isLastOperationUnknown
      ensures objectName == "" && objectMemberName == "" && objectCombinedName == ""
      ensures jschlVc == "" && pass == "" && lastOperation == ""
    {
      this.page := page;
      this.hostLength := hostLength;
      stopBreakingIndex, challengeValue, isLastOperationUnknown := 0, 0, false;
      objectName, objectMemberName, objectCombinedName := "", "", "";
      jschlVc, pass, lastOperation := "", "", "";
    }

    /** The fields hold what creation found: the cursor, the seed's names,
        value and operator token, and the two attribute values. */
    ghost predicate Holds(l: Loaded)
      reads this
    {
      Valid() && stopBreakingIndex == l.cursor &&
      objectName == l.seed.objectName && objectMemberName == l.seed.MemberName() &&
      objectCombinedName == l.seed.Combined() &&
      challengeValue == l.seed.value && lastOperation == l.seed.token &&
      jschlVc == l.jschlVc.value && pass == l.pass.value
    }

    /** The outcome of creation agrees with `r`: a success holds its result,
        a failure reports its reason. */
    ghost predicate Reports(outcome: Outcome, r: Result<Loaded>)
      reads this
    {
      match r
      case Ok(l) => outcome == Pass && Holds(l)
      case Err(f) => outcome == Fail(f)
    }

    /** The constructor's scanning: the marker, the seed declaration, the
        identifier's next occurrence and the two attribute values. */
    method Load() returns (outcome: Outcome)
      modifies this
      ensures isLastOperationUnknown == old(isLastOperationUnknown)
      ensures Reports(outcome, LoadSpec(page))
    {
      NeedleLengths();
      var marker := IndexOf(page, Marker, 0);
      if marker.None? {
        return Fail(MarkerNotFound);
      }
      LoadSeedStep(page, marker.value);
      stopBreakingIndex := marker.value + 26;
      outcome := LoadFrom(stopBreakingIndex);
    }

    /** Creation after the marker: the seed statement, the identifier's next
        occurrence after it, and the attributes from there. */
    method LoadFrom(start: nat) returns (outcome: Outcome)
      requires start <= |page|
      modifies this
      ensures isLastOperationUnknown == old(isLastOperationUnknown)
      ensures Reports(outcome, AfterSeed(page, start, SeedAt(page, start)))
    {
      var seed := ReadSeed(start);
      if seed.Err? {
        return Fail(seed.failure);
      }
      challengeValue := seed.value;
      outcome := FindCursor(start, SeedAt(page, start).value);
    }

    /** The fields hold the names and the operator token of the seed `sd`. */
    ghost predicate Names(sd: Seed)
      reads this
    {
      objectName == sd.objectName && objectMemberName == sd.MemberName() &&
      objectCombinedName == sd.Combined() && lastOperation == sd.token
    }

    /** The fields hold the seed `sd`, its value included. */
    ghost predicate SeedHeld(sd: Seed)
      reads this
    {
      Names(sd) && challengeValue == sd.value
    }

    /** Creation once the seed is read: the identifier's next occurrence from
        past the seed statement, then the attributes from there. */
    method FindCursor(start: nat, ghost sd: Seed) returns (outcome: Outcome)
      requires start <= |page| && stopBreakingIndex == TerminatorEnd(page, start) && SeedHeld(sd)
      modifies this`stopBreakingIndex, this`jschlVc, this`pass
      ensures Reports(outcome, AfterSeed(page, start, Ok(sd)))
    {
      var found := IndexOf(page, objectCombinedName, stopBreakingIndex);
      LoadCursorStep(page, start, sd, found);
      if found.None? {
        return Fail(ExpressionNotFound);
      }
      stopBreakingIndex := found.value;
      outcome := ReadAttributes(stopBreakingIndex);
    }

    /** The seed part of creation: the first statement from `start`, read as
        the seed declaration; the cursor ends past that statement's ';'. */
    method ReadSeed(start: nat) returns (r: Result<nat>)
      requires start <= |page|
      modifies this`stopBreakingIndex, this`objectName, this`objectMemberName, this`objectCombinedName, this`lastOperation
      ensures stopBreakingIndex == TerminatorEnd(page, start)
      ensures match SeedAt(page, start)
        case Ok(s) =>
          r == Ok(s.value) && objectName == s.objectName && objectMemberName == s.MemberName() &&
          objectCombinedName == s.Combined() && lastOperation == s.token
        case Err(f) => r == Err(f)
    {
      var first := GetExpression(start);
      if first.Err? {
        return Err(first.failure);
      }
      r := ParseObject(first.value);
    }

    /** The attribute part of creation: jschl_vc from `from`, then pass from
        jschl_vc's closing quote. */
    method ReadAttributes(from: nat) returns (outcome: Outcome)
      requires from <= |page|
      modifies this`jschlVc, this`pass
      ensures match Attributes(page, from)
        case Ok(a) => outcome == Pass && jschlVc == a.0.value && pass == a.1.value
        case Err(f) => outcome == Fail(f)
    {
      var vc := Scan(page, JschlVcNeedle, '"', from, JschlVcNotFound, JschlVcUnclosed);
      if vc.Err? {
        return Fail(vc.failure);
      }
      jschlVc := vc.value.value;
      var ps := Scan(page, PassNeedle, '"', vc.value.close, PassNotFound, PassUnclosed);
      if ps.Err? {
        return Fail(ps.failure);
      }
      pass := ps.value.value;
      outcome := Pass;
    }

    /** `Solve`: run the statement loop, then add the host name's length. */
    method Solve() returns (outcome: Outcome)
      requires Valid()
      modifies this`stopBreakingIndex, this`lastOperation, this`challengeValue, this`isLastOperationUnknown
      ensures var h := SolveSpec(page, objectCombinedName, hostLength, old(State()));
        State() == h.final && outcome == (if h.failure.None? then Pass else Fail(h.failure.value))
    {
      NormaliseEmpty(objectCombinedName);
      while !isLastOperationUnknown
        invariant stopBreakingIndex <= |page|
        invariant Run(page, objectCombinedName, State()) == Run(page, objectCombinedName, old(State()))
        decreases |page| - stopBreakingIndex
      {
        var expression := GetExpression(stopBreakingIndex);
        if expression.Err? {
          return Fail(expression.failure);
        }
        var operand := ParseExpression(expression.value);
        if operand.Err? {
          return Fail(operand.failure);
        }
        var done := PerformOperation(operand.value);
        if done.Fail? {
          return done;
        }
      }
      challengeValue := challengeValue + hostLength;
      outcome := Pass;
    }

    /** `GetExpression`: the next statement, with the cursor moved past its ';'. */
    method GetExpression(p: nat) returns (r: Result<string>)
      requires p <= |page|
      modifies this`stopBreakingIndex
      ensures stopBreakingIndex == TerminatorEnd(page, p)
      ensures r == NextExpression(page, p)
    {
      var semicolon := IndexOf(page, ";", p);
      stopBreakingIndex := if semicolon.Some? then semicolon.value + 1 else 0;
      if stopBreakingIndex < p {
        return Err(Truncated);
      }
      r := Ok(Trim(page[p..stopBreakingIndex]));
    }

    /** `ParseObject`: read the seed declaration, record the names, and decode
        the initial value. */
    method ParseObject(expr: string) returns (r: Result<nat>)
      modifies this`objectName, this`objectMemberName, this`objectCombinedName, this`lastOperation
      ensures match SeedOf(expr)
        case Ok(s) => r == Ok(s.value) && Names(s)
        case Err(f) => r == Err(f)
    {
      var nameEndIndex := IndexOf(expr, "=", 0);
      if nameEndIndex.None? {
        return Err(MissingEquals);
      }
      objectName := expr[..nameEndIndex.value];
      var member := Scan(expr, "\"", '"', nameEndIndex.value, MissingOpeningQuote, MissingClosingQuote);
      if member.Err? {
        return Err(member.failure);
      }
      objectMemberName := member.value.value;
      objectCombinedName := objectName + "." + objectMemberName;
      var init := Scan(expr, ":", '}', member.value.close, MissingColon, MissingClosingBrace);
      if init.Err? {
        return Err(init.failure);
      }
      SeedOfParts(expr, nameEndIndex.value, member.value, init.value);
      r := ParseExpression(init.value.value);
    }

    /** `ParseExpression`: normalise, record the operator token, decode the operand. */
    method ParseExpression(expr: string) returns (r: Result<nat>)
      requires |objectCombinedName| > 0
      modifies this`lastOperation
      ensures match Decode(expr, objectCombinedName)
        case Ok(d) => r == Ok(d.operand) && lastOperation == d.token
        case Err(f) => r == Err(f) && lastOperation == old(lastOperation)
    {
      var newExpression := Normalise(expr, objectCombinedName);
      if |newExpression| < 2 {
        return Err(ExpressionTooShort);
      }
      lastOperation := [newExpression[0], newExpression[1]];
      var value;
      if '(' in newExpression {
        value := ParseParenthesisExpression(newExpression);
      } else {
        value := ParseUniqueExpression(newExpression);
      }
      r := Ok(value);
    }

    /** `ParseParenthesisExpression`: count the units of each `)+(` group into
        `numArray`, append each count's decimal string, parse the result. */
    method ParseParenthesisExpression(expr: string) returns (r: nat)
      ensures r == GroupsValue(expr)
    {
      var elements := Split(expr, GroupSeparator);
      ghost var counts := GroupCounts(expr);
      var numArray := new int[|elements|](_ => 0);
      var resultString := "";
      var currentElement := 0;
      while currentElement < |elements|
        invariant 0 <= currentElement <= |elements|
        invariant forall k :: currentElement <= k < |elements| ==> numArray[k] == 0
        invariant resultString == DigitString(counts[..currentElement])
      {
        var s := elements[currentElement];
        var i := 0;
        while i < |s|
          invariant 0 <= i <= |s|
          invariant numArray[currentElement] == Count(s[..i], Unit)
          invariant forall k :: currentElement < k < |elements| ==> numArray[k] == 0
        {
          CountSnoc(s, i, Unit);
          if s[i] == Unit {
            numArray[currentElement] := numArray[currentElement] + 1;
          }
          i := i + 1;
        }
        assert s[..|s|] == s;
        assert numArray[currentElement] == counts[currentElement];
        DigitStringSnoc(counts, currentElement);
        resultString := resultString + NatToDecimal(numArray[currentElement]);
        currentElement := currentElement + 1;
      }
      assert counts[..|elements|] == counts;
      r := ParseDecimal(resultString);
    }

    /** `ParseUniqueExpression`: the number of units in the text. */
    method ParseUniqueExpression(expr: string) returns (r: nat)
      ensures r == UniqueValue(expr)
    {
      var numValue := 0;
      var i := 0;
      while i < |expr|
        invariant 0 <= i <= |expr|
        invariant numValue == Count(expr[..i], Unit)
      {
        CountSnoc(expr, i, Unit);
        if expr[i] == Unit {
          numValue := numValue + 1;
        }
        i := i + 1;
      }
      assert expr[..|expr|] == expr;
      r := numValue;
    }

    /** `PerformOpeartion`: apply the last operator to the accumulator, or
        raise the unknown-operator flag. */
    method PerformOperation(value: int) returns (outcome: Outcome)
      modifies this`challengeValue, this`isLastOperationUnknown
      ensures match Perform(old(challengeValue), lastOperation, value)
        case Ok(a) =>
          outcome == Pass && challengeValue == a.value &&
          isLastOperationUnknown == (old(isLastOperationUnknown) || a.unknown)
        case Err(f) =>
          outcome == Fail(f) && challengeValue == old(challengeValue) &&
          isLastOperationUnknown == old(isLastOperationUnknown)
    {
      if lastOperation == "-=" {
        challengeValue := challengeValue - value;
      } else if lastOperation == "+=" {
        challengeValue := challengeValue + value;
      } else if lastOperation == "*=" {
        challengeValue := challengeValue * value;
      } else if lastOperation == "/=" {
        if value == 0 {
          return Fail(DivideByZero);
        }
        challengeValue := TruncDiv(challengeValue, value);
      } else {
        isLastOperationUnknown := true;
      }
      outcome := Pass;
    }
  }
}
