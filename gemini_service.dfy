/** The response-extraction pipeline of services/geminiService.ts: `extractJson`, which
    recovers a JSON value from free-form model output, and the post-processing that
    `fetchFlightData` applies to the model's reply. The network call is not part of the
    model; its outcome is an input. `JSON.parse` is an input too, as a function that
    yields `None` where the real one throws. */
module GeminiService {
  import opened Wrappers
  import opened Json
  import opened Strings

  const Open: string := "```json"
  const Close: string := "```"

  const ExtractionFailed: string := "Could not find or parse a valid JSON object in the response."
  const NotAnArray: string := "API response is not a valid array of flights."
  const FetchFailedPrefix: string := "Failed to fetch flight data: "
  const UnexpectedFailure: string := "An unexpected error occurred while fetching flight data."

  /* ---------------------------------------------------------------------------
     The fenced-block pattern  /```json\s*([\s\S]*?)\s*```/
     --------------------------------------------------------------------------- */

  /** One way for the pattern to match: it starts at `start`, the leading `\s*` takes
      `lead` characters, the lazy group captures `len` characters and the trailing `\s*`
      takes `trail` characters before the closing fence. */
  datatype FenceMatch = FenceMatch(start: nat, lead: nat, len: nat, trail: nat) {
    function CaptureStart(): nat { start + |Open| + lead }
    function CloseStart(): nat { CaptureStart() + len + trail }
  }

  /** `m` is a match of the pattern in `t`. */
  predicate Matches(t: string, m: FenceMatch) {
    && OccursAt(t, Open, m.start)
    && SpacesBetween(t, m.start + |Open|, m.CaptureStart())
    && SpacesBetween(t, m.CaptureStart() + m.len, m.CloseStart())
    && OccursAt(t, Close, m.CloseStart())
  }

  /** A backtracking matcher tries `m` no later than `n`: leftmost start first, then the
      longest leading `\s*` (greedy), the shortest group (lazy), the longest trailing `\s*`. */
  predicate Precedes(m: FenceMatch, n: FenceMatch) {
    || m.start < n.start
    || (m.start == n.start && m.lead > n.lead)
    || (m.start == n.start && m.lead == n.lead && m.len < n.len)
    || (m.start == n.start && m.lead == n.lead && m.len == n.len && m.trail >= n.trail)
  }

  /** `m` is the match `text.match(...)` reports: the first one the matcher tries. */
  ghost predicate IsReportedMatch(t: string, m: FenceMatch) {
    Matches(t, m) && forall n :: Matches(t, n) ==> Precedes(m, n)
  }

  /** Text of the capture group of match `m`. */
  function Capture(t: string, m: FenceMatch): (r: string)
    requires Matches(t, m)
    ensures |r| == m.len
  {
    t[m.CaptureStart()..m.CaptureStart() + m.len]
  }

  /** The pattern, hand-coded as a search: the first "```json", the whitespace after it,
      the first "```" after that whitespace, and the whitespace run just before it. */
  function FindFence(t: string): (r: Option<FenceMatch>)
    ensures r.Some? ==> Matches(t, r.value)
  {
    match FindFrom(t, Open, 0)
    case None => None
    case Some(i) =>
      var s := SkipSpaces(t, i + |Open|);
      match FindFrom(t, Close, s)
      case None => None
      case Some(j) =>
        var e := SpaceRunStart(t, s, j);
        Some(FenceMatch(i, s - (i + |Open|), e - s, j - e))
  }

  lemma BacktickNotSpace(t: string, k: int)
    requires OccursAt(t, Close, k)
    ensures t[k] == '`' && !IsSpace(t[k])
  {
  }

  /** Every match starts at or after the first "```json" and closes at or after the
      whitespace that follows it. */
  lemma MatchLiesBeyondFirstOpen(t: string, i: nat, s: nat, n: FenceMatch)
    requires OccursAt(t, Open, i) && forall k :: 0 <= k < i ==> !OccursAt(t, Open, k)
    requires i + |Open| <= s && SpacesBetween(t, i + |Open|, s)
    requires Matches(t, n)
    ensures i <= n.start && s <= n.CloseStart()
  {
    BacktickNotSpace(t, n.CloseStart());
  }

  /** A match at the first "```json" with the whitespace run `s`, the first closing fence
      `j` after it and the whitespace run `e..j` before that fence is tried before any other. */
  lemma FoundMatchPrecedes(t: string, i: nat, s: nat, e: nat, j: nat, n: FenceMatch)
    requires i + |Open| <= s <= e <= j
    requires s < |t| ==> !IsSpace(t[s])
    requires OccursAt(t, Close, j) && forall k :: s <= k < j ==> !OccursAt(t, Close, k)
    requires SpacesBetween(t, e, j) && (s < e ==> !IsSpace(t[e - 1]))
    requires Matches(t, n) && i <= n.start && s <= n.CloseStart()
    ensures Precedes(FenceMatch(i, s - (i + |Open|), e - s, j - e), n)
  {
    var m := FenceMatch(i, s - (i + |Open|), e - s, j - e);
    BacktickNotSpace(t, j);
    assert j <= n.CloseStart();
    if n.start == i && n.lead == m.lead {
      assert n.CaptureStart() == s;
      if n.len == m.len {
        assert n.CaptureStart() + n.len == e;
      }
    }
  }

  lemma FoundMatchIsReported(t: string, i: nat, s: nat, e: nat, j: nat)
    requires OccursAt(t, Open, i) && forall k :: 0 <= k < i ==> !OccursAt(t, Open, k)
    requires i + |Open| <= s && SpacesBetween(t, i + |Open|, s) && (s < |t| ==> !IsSpace(t[s]))
    requires s <= e <= j
    requires OccursAt(t, Close, j) && forall k :: s <= k < j ==> !OccursAt(t, Close, k)
    requires SpacesBetween(t, e, j) && (s < e ==> !IsSpace(t[e - 1]))
    ensures IsReportedMatch(t, FenceMatch(i, s - (i + |Open|), e - s, j - e))
  {
    var m := FenceMatch(i, s - (i + |Open|), e - s, j - e);
    assert Matches(t, m);
    forall n | Matches(t, n)
      ensures Precedes(m, n)
    {
      MatchLiesBeyondFirstOpen(t, i, s, n);
      FoundMatchPrecedes(t, i, s, e, j, n);
    }
  }

  lemma NoCloseMeansNoMatch(t: string, i: nat, s: nat)
    requires OccursAt(t, Open, i) && forall k :: 0 <= k < i ==> !OccursAt(t, Open, k)
    requires i + |Open| <= s && SpacesBetween(t, i + |Open|, s)
    requires forall k :: s <= k ==> !OccursAt(t, Close, k)
    ensures forall n :: !Matches(t, n)
  {
    forall n | Matches(t, n)
      ensures false
    {
      MatchLiesBeyondFirstOpen(t, i, s, n);
    }
  }

  /** The search agrees with the regular expression: it finds the reported match when
      there is one, and finds nothing exactly when the pattern cannot match. */
  lemma FindFenceIsReportedMatch(t: string)
    ensures FindFence(t).Some? ==> IsReportedMatch(t, FindFence(t).value)
    ensures FindFence(t).None? ==> forall n :: !Matches(t, n)
  {
    var first := FindFrom(t, Open, 0);
    if first.Some? {
      var i := first.value;
      var s := SkipSpaces(t, i + |Open|);
      var close := FindFrom(t, Close, s);
      if close.Some? {
        var j := close.value;
        FoundMatchIsReported(t, i, s, SpaceRunStart(t, s, j), j);
      } else {
        NoCloseMeansNoMatch(t, i, s);
      }
    }
  }

  lemma PrecedesAntisymmetric(m: FenceMatch, n: FenceMatch)
    requires Precedes(m, n) && Precedes(n, m)
    ensures m == n
  {
  }

  /** The reported match is unique, and it is the one the search finds. */
  lemma ReportedMatchIsFound(t: string, m: FenceMatch)
    requires IsReportedMatch(t, m)
    ensures FindFence(t) == Some(m)
  {
    FindFenceIsReportedMatch(t);
    PrecedesAntisymmetric(m, FindFence(t).value);
  }

  /* ---------------------------------------------------------------------------
     extractJson
     --------------------------------------------------------------------------- */

  /** Stage 1 input: the capture of the first fenced block, when it is non-empty
      (`markdownMatch && markdownMatch[1]`). */
  function FenceCandidate(t: string): (r: Option<string>)
    ensures forall m :: IsReportedMatch(t, m) ==>
      r == (if Capture(t, m) != "" then Some(Capture(t, m)) else None)
    ensures (forall m :: !Matches(t, m)) ==> r.None?
  {
    FindFenceIsReportedMatch(t);
    assert forall m :: IsReportedMatch(t, m) ==> FindFence(t) == Some(m) by {
      forall m | IsReportedMatch(t, m)
        ensures FindFence(t) == Some(m)
      {
        ReportedMatchIsFound(t, m);
      }
    }
    match FindFence(t)
    case None => None
    case Some(m) => if Capture(t, m) != "" then Some(Capture(t, m)) else None
  }

  /** Stage 2 input: from the first '[' to the last ']', both included, when the last ']'
      lies after the first '['. */
  function BracketCandidate(t: string): (r: Option<string>)
    ensures forall i, j :: FirstAt(t, '[', i) && LastAt(t, ']', j) ==>
      r == (if i < j then Some(t[i..j + 1]) else None)
    ensures (forall i :: !FirstAt(t, '[', i)) || (forall j :: !LastAt(t, ']', j)) ==> r.None?
  {
    var startIndex := IndexOf(t, '[');
    var endIndex := LastIndexOf(t, ']');
    if startIndex != -1 && endIndex > startIndex then
      assert FirstAt(t, '[', startIndex) && LastAt(t, ']', endIndex);
      Some(t[startIndex..endIndex + 1])
    else
      None
  }

  /** `extractJson`: the fenced block, else the bracketed substring, else the whole text;
      the first candidate that parses wins. */
  function ExtractJson(t: string, parse: string -> Option<Json>): (r: Result<Json, string>)
    ensures r.Failure? ==> r.error == ExtractionFailed
    ensures r.Success? ==> exists lo, hi :: 0 <= lo <= hi <= |t| && parse(t[lo..hi]) == Some(r.value)
  {
    var fenced := FenceCandidate(t);
    if fenced.Some? && parse(fenced.value).Some? then
      assert Matches(t, FindFence(t).value);
      Success(parse(fenced.value).value)
    else
      var bracketed := BracketCandidate(t);
      if bracketed.Some? && parse(bracketed.value).Some? then
        Success(parse(bracketed.value).value)
      else
        match parse(t)
        case Some(v) =>
          assert t[0..|t|] == t;
          Success(v)
        case None => Failure(ExtractionFailed)
  }

  /* ---------------------------------------------------------------------------
     The three stages, stated without reference to the search
     --------------------------------------------------------------------------- */

  /** Stage 1 yields nothing: the pattern does not match, or its capture is empty,
      or the capture does not parse. */
  ghost predicate FenceStageFails(t: string, parse: string -> Option<Json>) {
    forall m :: IsReportedMatch(t, m) ==> Capture(t, m) == "" || parse(Capture(t, m)).None?
  }

  /** `i` is the first index of `c` in `t`. */
  predicate FirstAt(t: string, c: char, i: int) {
    0 <= i < |t| && t[i] == c && forall k :: 0 <= k < i ==> t[k] != c
  }

  /** `j` is the last index of `c` in `t`. */
  predicate LastAt(t: string, c: char, j: int) {
    0 <= j < |t| && t[j] == c && forall k :: j < k < |t| ==> t[k] != c
  }

  /** Stage 2 yields nothing: there is no '[', the last ']' does not lie after the
      first '[', or the text between them does not parse. */
  ghost predicate BracketStageFails(t: string, parse: string -> Option<Json>) {
    forall i, j :: FirstAt(t, '[', i) && LastAt(t, ']', j) && i < j ==> parse(t[i..j + 1]).None?
  }

  lemma FenceStageFailsIff(t: string, parse: string -> Option<Json>)
    ensures FenceStageFails(t, parse) <==> FenceCandidate(t).None? || parse(FenceCandidate(t).value).None?
  {
    FindFenceIsReportedMatch(t);
    if FindFence(t).Some? {
      forall m | IsReportedMatch(t, m)
        ensures m == FindFence(t).value
      {
        ReportedMatchIsFound(t, m);
      }
    }
  }

  lemma BracketStageFailsIff(t: string, parse: string -> Option<Json>)
    ensures BracketStageFails(t, parse) <==> BracketCandidate(t).None? || parse(BracketCandidate(t).value).None?
  {
    var i, j := IndexOf(t, '['), LastIndexOf(t, ']');
    if BracketCandidate(t).Some? {
      assert FirstAt(t, '[', i) && LastAt(t, ']', j);
    }
  }

  /** Stage 1 wins: when the reported fenced block has a non-empty capture that parses,
      the result is that value, whatever the rest of the text holds. */
  lemma FenceStageWins(t: string, parse: string -> Option<Json>, m: FenceMatch)
    requires IsReportedMatch(t, m)
    requires Capture(t, m) != "" && parse(Capture(t, m)).Some?
    ensures ExtractJson(t, parse) == Success(parse(Capture(t, m)).value)
  {
    ReportedMatchIsFound(t, m);
  }

  /** Stage 2 wins once stage 1 has failed: the text from the first '[' to the last ']',
      both included, is parsed. */
  lemma BracketStageWins(t: string, parse: string -> Option<Json>, i: nat, j: nat)
    requires FenceStageFails(t, parse)
    requires FirstAt(t, '[', i) && LastAt(t, ']', j) && i < j
    requires parse(t[i..j + 1]).Some?
    ensures ExtractJson(t, parse) == Success(parse(t[i..j + 1]).value)
  {
    FenceStageFailsIff(t, parse);
    assert IndexOf(t, '[') == i && LastIndexOf(t, ']') == j;
    assert BracketCandidate(t) == Some(t[i..j + 1]);
  }

  /** When stages 1 and 2 both fail, the whole, unmodified text is parsed, and failing
      that, the one fixed error is raised. */
  lemma WholeTextStage(t: string, parse: string -> Option<Json>)
    requires FenceStageFails(t, parse) && BracketStageFails(t, parse)
    ensures parse(t).Some? ==> ExtractJson(t, parse) == Success(parse(t).value)
    ensures parse(t).None? ==> ExtractJson(t, parse) == Failure(ExtractionFailed)
  {
    FenceStageFailsIff(t, parse);
    BracketStageFailsIff(t, parse);
  }

  /** Extraction fails exactly when all three stages fail, and then with the fixed message. */
  lemma ExtractionFailsExactly(t: string, parse: string -> Option<Json>)
    ensures ExtractJson(t, parse).Failure?
      <==> FenceStageFails(t, parse) && BracketStageFails(t, parse) && parse(t).None?
    ensures ExtractJson(t, parse).Failure? ==> ExtractJson(t, parse).error == ExtractionFailed
  {
    FenceStageFailsIff(t, parse);
    BracketStageFailsIff(t, parse);
  }

  /** Text with no backtick and no '[' can only be parsed whole. */
  lemma PlainTextIsParsedWhole(t: string, parse: string -> Option<Json>)
    requires '`' !in t && '[' !in t
    ensures FenceStageFails(t, parse) && BracketStageFails(t, parse)
  {
    forall m | IsReportedMatch(t, m)
      ensures false
    {
      BacktickNotSpace(t, m.CloseStart());
    }
  }

  /* ---------------------------------------------------------------------------
     fetchFlightData, after the network call
     --------------------------------------------------------------------------- */

  /** A grounding chunk's `web` object; either field may be missing. */
  datatype WebSource = WebSource(uri: Option<string>, title: Option<string>)
  datatype GroundingChunk = GroundingChunk(web: Option<WebSource>)
  datatype GroundingMetadata = GroundingMetadata(groundingChunks: Option<seq<GroundingChunk>>)
  datatype Candidate = Candidate(groundingMetadata: Option<GroundingMetadata>)

  /** What the model returned: its text and, optionally, its candidates. */
  datatype Response = Response(text: string, candidates: Option<seq<Candidate>>)

  /** A thrown value: an `Error` with its message, or anything else. */
  datatype Thrown = ErrorThrown(message: string) | OtherThrown

  /** How the awaited API call ended. */
  datatype Reply = Replied(response: Response) | Threw(thrown: Thrown)

  datatype GroundingSource = GroundingSource(title: string, uri: string)

  /** The flights are the parsed array's elements, unchecked: the source only casts them. */
  datatype FetchResult = FetchResult(flights: seq<Json>, sources: seq<GroundingSource>)

  /** JavaScript truthiness of an optional string. */
  predicate Truthy(s: Option<string>) {
    s.Some? && s.value != ""
  }

  /** The filter `webSource && webSource.uri && webSource.title`. */
  predicate IsCitation(c: GroundingChunk)
    ensures IsCitation(c) <==>
      && c.web.Some?
      && c.web.value.uri.Some? && |c.web.value.uri.value| > 0
      && c.web.value.title.Some? && |c.web.value.title.value| > 0
  {
    c.web.Some? && Truthy(c.web.value.uri) && Truthy(c.web.value.title)
  }

  function Citation(c: GroundingChunk): (r: GroundingSource)
    requires IsCitation(c)
    ensures Some(r.uri) == c.web.value.uri && Some(r.title) == c.web.value.title
    ensures r.uri != "" && r.title != ""
  {
    GroundingSource(c.web.value.title.value, c.web.value.uri.value)
  }

  /** `chunks.map(chunk => chunk.web).filter(...)`. */
  function CollectSources(chunks: seq<GroundingChunk>): (r: seq<GroundingSource>)
    ensures |r| <= |chunks|
    ensures forall src :: src in r ==> exists c :: c in chunks && IsCitation(c) && Citation(c) == src
    ensures forall c :: c in chunks && IsCitation(c) ==> Citation(c) in r
  {
    if chunks == [] then []
    else
      var rest := CollectSources(chunks[1..]);
      assert forall c :: c in chunks[1..] ==> c in chunks;
      if IsCitation(chunks[0]) then [Citation(chunks[0])] + rest else rest
  }

  /** The filter keeps order: sources of a concatenation are the concatenated sources. */
  lemma {:induction false} CollectSourcesAppend(a: seq<GroundingChunk>, b: seq<GroundingChunk>)
    ensures CollectSources(a + b) == CollectSources(a) + CollectSources(b)
  {
    if a == [] {
      assert a + b == b;
    } else {
      assert (a + b)[1..] == a[1..] + b;
      CollectSourcesAppend(a[1..], b);
    }
  }

  /** The chunks of the first candidate's grounding metadata, or none when any link
      of `response.candidates?.[0]?.groundingMetadata?.groundingChunks` is missing. */
  function ResponseSources(resp: Response): (r: seq<GroundingSource>)
    ensures resp.candidates.None? || resp.candidates.value == [] ==> r == []
    ensures (resp.candidates.Some? && resp.candidates.value != []
             && resp.candidates.value[0].groundingMetadata.None?) ==> r == []
    ensures (resp.candidates.Some? && resp.candidates.value != []
             && resp.candidates.value[0].groundingMetadata.Some?
             && resp.candidates.value[0].groundingMetadata.value.groundingChunks.None?) ==> r == []
    ensures (resp.candidates.Some? && resp.candidates.value != []
             && resp.candidates.value[0].groundingMetadata.Some?
             && resp.candidates.value[0].groundingMetadata.value.groundingChunks.Some?) ==>
      r == CollectSources(resp.candidates.value[0].groundingMetadata.value.groundingChunks.value)
  {
    if && resp.candidates.Some?
       && |resp.candidates.value| > 0
       && resp.candidates.value[0].groundingMetadata.Some?
       && resp.candidates.value[0].groundingMetadata.value.groundingChunks.Some?
    then CollectSources(resp.candidates.value[0].groundingMetadata.value.groundingChunks.value)
    else []
  }

  /** The `catch` clause: an `Error` keeps its message behind a fixed prefix; anything
      else becomes one generic message. */
  function Wrap(e: Thrown): (msg: string)
    ensures e.ErrorThrown? ==> FetchFailedPrefix <= msg && msg[|FetchFailedPrefix|..] == e.message
    ensures e.OtherThrown? ==> msg == UnexpectedFailure
  {
    match e
    case ErrorThrown(message) => FetchFailedPrefix + message
    case OtherThrown => UnexpectedFailure
  }

  /** `fetchFlightData` from the moment the API call settles. */
  function FetchFlightData(reply: Reply, parse: string -> Option<Json>): (r: Result<FetchResult, string>)
    ensures r.Failure? ==> FetchFailedPrefix <= r.error || r.error == UnexpectedFailure
    ensures r.Success? ==> reply.Replied? && ExtractJson(reply.response.text, parse) == Success(JArray(r.value.flights))
    ensures r.Success? ==> r.value.sources == ResponseSources(reply.response)
    ensures (reply.Replied? && ExtractJson(reply.response.text, parse).Success?
             && ExtractJson(reply.response.text, parse).value.JArray?) ==>
      r == Success(FetchResult(ExtractJson(reply.response.text, parse).value.items,
                               ResponseSources(reply.response)))
  {
    match reply
    case Threw(e) => Failure(Wrap(e))
    case Replied(response) =>
      match ExtractJson(response.text, parse)
      case Failure(message) => Failure(Wrap(ErrorThrown(message)))
      case Success(flightData) =>
        var sources := ResponseSources(response);
        if !flightData.JArray? then Failure(Wrap(ErrorThrown(NotAnArray)))
        else Success(FetchResult(flightData.items, sources))
  }

  /** Every way a reply can fail, and the message each one produces. */
  lemma FetchFailures(reply: Reply, parse: string -> Option<Json>)
    ensures reply.Threw? ==> FetchFlightData(reply, parse) == Failure(Wrap(reply.thrown))
    ensures reply.Replied? && ExtractJson(reply.response.text, parse).Failure? ==>
      FetchFlightData(reply, parse) == Failure(FetchFailedPrefix + ExtractionFailed)
    ensures (reply.Replied? && ExtractJson(reply.response.text, parse).Success?
             && !ExtractJson(reply.response.text, parse).value.JArray?) ==>
      FetchFlightData(reply, parse) == Failure(FetchFailedPrefix + NotAnArray)
  {
  }

  /** A reply whose reported fenced block holds an array yields that array's elements
      as the flights, unchanged, with the first candidate's citations as sources. */
  lemma FencedArrayIsFetched(resp: Response, parse: string -> Option<Json>, m: FenceMatch, items: seq<Json>)
    requires IsReportedMatch(resp.text, m)
    requires Capture(resp.text, m) != "" && parse(Capture(resp.text, m)) == Some(JArray(items))
    ensures FetchFlightData(Replied(resp), parse) == Success(FetchResult(items, ResponseSources(resp)))
  {
    FenceStageWins(resp.text, parse, m);
  }

  /** A refusal in plain prose that no parser accepts ends in the wrapped extraction error. */
  lemma ProseReplyFails(parse: string -> Option<Json>)
    requires parse("Sorry, I cannot help with that.").None?
    ensures FetchFlightData(Replied(Response("Sorry, I cannot help with that.", None)), parse)
      == Failure(FetchFailedPrefix + ExtractionFailed)
  {
    var t := "Sorry, I cannot help with that.";
    assert '`' !in t && '[' !in t;
    PlainTextIsParsedWhole(t, parse);
    WholeTextStage(t, parse);
  }

  /** Of the chunks `[{web:{uri:"http://a",title:"A"}}, {web:{title:"no-uri"}}, {web:null}, {}]`
      only the first is kept. */
  lemma CollectSourcesExample()
    ensures CollectSources([
      GroundingChunk(Some(WebSource(Some("http://a"), Some("A")))),
      GroundingChunk(Some(WebSource(None, Some("no-uri")))),
      GroundingChunk(None),
      GroundingChunk(None)]) == [GroundingSource("A", "http://a")]
  {
  }
}
