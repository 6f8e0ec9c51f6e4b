/** The plan-generation route, POST /api/generatePlanWithSummary: it renders
    a trip request into a prompt, hands it to a text-generation provider,
    cleans the provider's reply, parses it as JSON (with one trailing-comma
    repair on failure) and builds a one-line summary. The provider and
    `JSON.parse` are parameters of the model. */
module PlanRoute {
  import opened Common
  import opened JsStrings
  import opened JsonValue

  // ---------------------------------------------------------------------------
  // Trip request and prompt template
  // ---------------------------------------------------------------------------

  /** The request body. Every field is taken as text: `duration` is the
      text JavaScript converts the number to. */
  datatype TripRequest = TripRequest(
    destination: string,
    duration: string,
    budget: string,
    travelStyle: string,
    interests: seq<string>,
    accommodation: string,
    transportation: string,
    specialRequests: Option<string>)

  /** The eight placeholders, in the order the route replaces them. */
  const Placeholders: seq<string> := [
    "{destination}", "{duration}", "{budget}", "{travel_style}",
    "{interests}", "{accommodation}", "{transportation}", "{special_requests}"]

  /** The answer format the prompt demands, after the last placeholder. */
  const ResponseFormat: string :=
    "\n"
    + "\n"
    + "IMPORTANT: Respond with ONLY valid JSON in this format:\n"
    + "{\n"
    + "  \"itinerary\": [\n"
    + "    {\n"
    + "      \"day\": \"Day 1\",\n"
    + "      \"morning\": \"Activity description\",\n"
    + "      \"afternoon\": \"Activity description\",\n"
    + "      \"evening\": \"Activity description\",\n"
    + "      \"accommodation\": \"Hotel/Accommodation details\",\n"
    + "      \"meals\": \"Meal suggestions\",\n"
    + "      \"estimated_cost\": \"Cost estimate\"\n"
    + "    }\n"
    + "  ],\n"
    + "  \"total_estimated_cost\": \"Total cost estimate\",\n"
    + "  \"travel_tips\": [\"Tip 1\", \"Tip 2\", \"Tip 3\"],\n"
    + "  \"packing_list\": [\"Item 1\", \"Item 2\", \"Item 3\"],\n"
    + "  \"emergency_contacts\": {\n"
    + "    \"local_emergency\": \"Emergency number\",\n"
    + "    \"embassy\": \"Embassy contact if applicable\",\n"
    + "    \"hotel\": \"Hotel contact\"\n"
    + "  }\n"
    + "}\n"

  /** The literal text before, between and after the placeholders. */
  const TemplatePieces: seq<string> := [
    "\nYou are an expert travel planner." + " Create a travel plan:\nDESTINATION: ",
    "\nDURATION: ",
    " days\nBUDGET: ",
    "\nTRAVEL_STYLE: ",
    "\nINTERESTS: ",
    "\nACCOMMODATION_PREFERENCE: ",
    "\nTRANSPORTATION_PREFERENCE: ",
    "\nSPECIAL_REQUESTS: ",
    ResponseFormat]

  /** `pieces[0] + holes[0] + pieces[1] + ... + holes[n-1] + pieces[n]`. */
  function Interleave(pieces: seq<string>, holes: seq<string>): string
    requires |pieces| == |holes| + 1
  {
    if holes == [] then pieces[0]
    else pieces[0] + holes[0] + Interleave(pieces[1..], holes[1..])
  }

  /** The prompt template: the pieces with the placeholders between them. */
  const Template: string := Interleave(TemplatePieces, Placeholders)

  /** The special requests, defaulted: absent or empty gives "None". */
  function SpecialRequestsText(special: Option<string>): (r: string)
    ensures special.None? || special.value == "" ==> r == "None"
    ensures special.Some? && special.value != "" ==> r == special.value
  {
    match special
    case None => "None"
    case Some(s) => if s == "" then "None" else s
  }

  /** The replacement texts, in placeholder order: one per placeholder,
      the interests joined with ", " and the special requests defaulted. */
  function PromptValues(req: TripRequest): (vs: seq<string>)
    ensures |vs| == |Placeholders|
    ensures vs[4] == Join(req.interests, ", ")
    ensures vs[7] == SpecialRequestsText(req.specialRequests)
  {
    [req.destination, req.duration, req.budget, req.travelStyle,
     Join(req.interests, ", "), req.accommodation, req.transportation,
     SpecialRequestsText(req.specialRequests)]
  }

  /** Replaces the first occurrence of each placeholder by its value, one
      placeholder after the other, each replacement working on the result
      of the previous one. */
  function ReplaceInOrder(s: string, holes: seq<string>, values: seq<string>): (r: string)
    requires |holes| == |values|
    ensures (forall k: nat, j: nat :: k < |holes| ==> !OccursAt(s, holes[k], j)) ==> r == s
    decreases |holes|
  {
    if holes == [] then s
    else
      assert (forall k: nat, j: nat :: k < |holes| ==> !OccursAt(s, holes[k], j)) ==>
             (forall k: nat, j: nat :: k < |holes| - 1 ==> !OccursAt(s, holes[1..][k], j)) by {
        forall k: nat | k < |holes| - 1 ensures holes[1..][k] == holes[k + 1] { }
      }
      ReplaceInOrder(ReplaceFirst(s, holes[0], values[0]), holes[1..], values[1..])
  }

  /** The formatted prompt. When no value contains `{` or `$`, it is the
      template with each of the eight placeholders replaced by its value,
      once, in order: destination, duration, budget, travel style, the
      interests joined with ", ", accommodation, transportation and the
      defaulted special requests. */
  function RenderPrompt(req: TripRequest): (r: string)
    ensures PlainRequest(req) ==>
              r == Interleave(TemplatePieces, [req.destination, req.duration, req.budget, req.travelStyle,
                                               Join(req.interests, ", "), req.accommodation, req.transportation,
                                               SpecialRequestsText(req.specialRequests)])
  {
    var vs := PromptValues(req);
    assert PlainRequest(req) ==> ReplaceInOrder(Template, Placeholders, vs) == Interleave(TemplatePieces, vs) by {
      if PlainRequest(req) { PlainValues(req); FillTemplate(vs); }
    }
    ReplaceInOrder(Template, Placeholders, vs)
  }

  /** The values can neither open a placeholder (`{`) that a later
      replacement would find first, nor carry a `$` pattern. The last value
      is replaced last, so only `$` matters for it. */
  predicate PlainRequest(req: TripRequest) {
    && '{' !in req.destination && '$' !in req.destination
    && '{' !in req.duration && '$' !in req.duration
    && '{' !in req.budget && '$' !in req.budget
    && '{' !in req.travelStyle && '$' !in req.travelStyle
    && (forall x :: x in req.interests ==> '{' !in x && '$' !in x)
    && '{' !in req.accommodation && '$' !in req.accommodation
    && '{' !in req.transportation && '$' !in req.transportation
    && (req.specialRequests.Some? ==> '$' !in req.specialRequests.value)
  }

  /** A character that neither the separator nor any element holds is not
      in the joined text. */
  lemma {:induction false} JoinAvoids(xs: seq<string>, sep: string, c: char)
    requires c !in sep && forall x :: x in xs ==> c !in x
    ensures c !in Join(xs, sep)
  {
    if |xs| > 1 {
      assert forall x :: x in xs[1..] ==> x in xs;
      JoinAvoids(xs[1..], sep, c);
      assert xs[0] in xs;
    } else if |xs| == 1 {
      assert xs[0] in xs;
    }
  }

  /** Regrouping a four-part concatenation. */
  lemma Associate(x: string, p: string, h: string, rest: string)
    ensures x + (p + h + rest) == x + p + h + rest
  {
  }

  /** Replacing in order, where every placeholder starts with `{` and no `{`
      occurs before it, puts each value exactly where its placeholder was. */
  lemma {:induction false} ReplaceInOrderInterleave(x: string, pieces: seq<string>, holes: seq<string>, values: seq<string>)
    requires |pieces| == |holes| + 1 && |values| == |holes|
    requires holes != [] ==> '{' !in x
    requires forall i :: 0 <= i < |holes| ==> '{' !in pieces[i] && holes[i] != [] && holes[i][0] == '{'
    requires forall i :: 0 <= i < |holes| - 1 ==> '{' !in values[i]
    requires forall i :: 0 <= i < |values| ==> '$' !in values[i]
    ensures ReplaceInOrder(x + Interleave(pieces, holes), holes, values) == x + Interleave(pieces, values)
    decreases |holes|
  {
    if holes != [] {
      var rest := Interleave(pieces[1..], holes[1..]);
      var a := x + pieces[0];
      Associate(x, pieces[0], holes[0], rest);
      assert '{' !in pieces[0] && holes[0] != [] && holes[0][0] == '{';
      assert '{' !in a;
      NoOccurrenceIn(a, holes[0], rest);
      assert '$' !in values[0];
      ReplaceFirstSplit(a, holes[0], rest, values[0]);
      var x' := a + values[0];
      assert |holes| > 1 ==> '{' !in values[0];
      ReplaceInOrderInterleave(x', pieces[1..], holes[1..], values[1..]);
      Associate(x, pieces[0], values[0], Interleave(pieces[1..], values[1..]));
    }
  }

  lemma FirstPieceFree()
    ensures '{' !in TemplatePieces[0]
  {
    var intro := "\nYou are an expert travel planner.";
    var ask := " Create a travel plan:\nDESTINATION: ";
    NoBrace(intro);
    NoBrace(ask);
    assert TemplatePieces[0] == intro + ask;
  }

  /** The two halves of the first piece carry no `{`. */
  lemma NoBrace(s: string)
    requires s == "\nYou are an expert travel planner." || s == " Create a travel plan:\nDESTINATION: "
    ensures '{' !in s
  {
  }

  /** Every placeholder opens with `{`, and no `{` occurs in the template
      before the last placeholder. */
  lemma TemplateShape()
    ensures |TemplatePieces| == |Placeholders| + 1
    ensures forall i :: 0 <= i < |Placeholders| ==>
              '{' !in TemplatePieces[i] && Placeholders[i] != [] && Placeholders[i][0] == '{'
  {
    FirstPieceFree();
    assert '{' !in TemplatePieces[1];
    assert '{' !in TemplatePieces[2];
    assert '{' !in TemplatePieces[3];
    assert '{' !in TemplatePieces[4];
    assert '{' !in TemplatePieces[5];
    assert '{' !in TemplatePieces[6];
    assert '{' !in TemplatePieces[7];
  }

  /** Replacing the eight placeholders in order by values free of `$`, the
      first seven also free of `{`, fills each placeholder once with its
      value. */
  lemma FillTemplate(vs: seq<string>)
    requires |vs| == |Placeholders|
    requires forall i :: 0 <= i < |vs| ==> '$' !in vs[i]
    requires forall i :: 0 <= i < |vs| - 1 ==> '{' !in vs[i]
    ensures ReplaceInOrder(Template, Placeholders, vs) == Interleave(TemplatePieces, vs)
  {
    TemplateShape();
    assert Template == [] + Interleave(TemplatePieces, Placeholders);
    ReplaceInOrderInterleave([], TemplatePieces, Placeholders, vs);
    assert [] + Interleave(TemplatePieces, vs) == Interleave(TemplatePieces, vs);
  }

  /** The rendered values of a plain request carry no `$`, and none but the
      last carries `{`. */
  lemma PlainValues(req: TripRequest)
    requires PlainRequest(req)
    ensures forall i :: 0 <= i < |PromptValues(req)| ==> '$' !in PromptValues(req)[i]
    ensures forall i :: 0 <= i < |PromptValues(req)| - 1 ==> '{' !in PromptValues(req)[i]
  {
    JoinAvoids(req.interests, ", ", '$');
    JoinAvoids(req.interests, ", ", '{');
  }

  /** Every value appears in the interleaved text. */
  lemma {:induction false} InterleaveContains(pieces: seq<string>, values: seq<string>, k: nat)
    requires |pieces| == |values| + 1 && k < |values|
    ensures IsInfix(values[k], Interleave(pieces, values))
  {
    var s := Interleave(pieces, values);
    if k == 0 {
      assert InfixAt(values[0], s, |pieces[0]|);
    } else {
      InterleaveContains(pieces[1..], values[1..], k - 1);
      var t := Interleave(pieces[1..], values[1..]);
      var p := pieces[0] + values[0];
      assert s == p + t;
      assert InfixAt(t, s, |p|);
      InfixTransitive(values[k], t, s);
    }
  }

  /** The rendered prompt holds every field's text, the interests joined
      with ", " and the special requests defaulted to "None". */
  lemma RenderedPromptHoldsValues(req: TripRequest)
    requires PlainRequest(req)
    ensures IsInfix(req.destination, RenderPrompt(req))
    ensures IsInfix(req.duration, RenderPrompt(req))
    ensures IsInfix(req.budget, RenderPrompt(req))
    ensures IsInfix(req.travelStyle, RenderPrompt(req))
    ensures IsInfix(Join(req.interests, ", "), RenderPrompt(req))
    ensures IsInfix(req.accommodation, RenderPrompt(req))
    ensures IsInfix(req.transportation, RenderPrompt(req))
    ensures IsInfix(SpecialRequestsText(req.specialRequests), RenderPrompt(req))
  {
    var vs := PromptValues(req);
    var p := Interleave(TemplatePieces, vs);
    forall k | 0 <= k < |vs|
      ensures IsInfix(vs[k], p)
    {
      InterleaveContains(TemplatePieces, vs, k);
    }
    assert IsInfix(vs[0], p) && IsInfix(vs[1], p) && IsInfix(vs[2], p) && IsInfix(vs[3], p);
    assert IsInfix(vs[4], p) && IsInfix(vs[5], p) && IsInfix(vs[6], p) && IsInfix(vs[7], p);
  }

  /** A placeholder's shape: `{`, a name free of braces, `}`. */
  predicate Delimited(p: string) {
    && |p| >= 2 && p[0] == '{' && p[|p| - 1] == '}'
    && forall i :: 0 < i < |p| - 1 ==> p[i] != '{' && p[i] != '}'
  }

  /** The eight placeholders have that shape, and no two are alike. */
  lemma PlaceholdersDelimited()
    ensures forall i :: 0 <= i < |Placeholders| ==> Delimited(Placeholders[i])
    ensures forall i, j :: 0 <= i < j < |Placeholders| ==> Placeholders[i] != Placeholders[j]
  {
    assert Delimited(Placeholders[0]) && Delimited(Placeholders[1]);
    assert Delimited(Placeholders[2]) && Delimited(Placeholders[3]);
    assert Delimited(Placeholders[4]) && Delimited(Placeholders[5]);
    assert Delimited(Placeholders[6]) && Delimited(Placeholders[7]);
  }

  /** A delimited text at position `i` puts `{` and `}` at its ends and no
      brace in between. */
  lemma BraceAt(p: string, s: string, i: nat, m: int)
    requires Delimited(p) && OccursAt(s, p, i)
    ensures s[i] == '{' && s[i + |p| - 1] == '}'
    ensures i < m < i + |p| - 1 ==> s[m] != '{' && s[m] != '}'
  {
    assert s[i..i + |p|][0] == s[i];
    assert s[i..i + |p|][|p| - 1] == s[i + |p| - 1];
    if i < m < i + |p| - 1 {
      assert s[i..i + |p|][m - i] == s[m];
    }
  }

  /** The characters of an infix are characters of `t`. */
  lemma CharOfInfix(t: string, s: string, j: nat, m: int)
    requires InfixAt(t, s, j)
    ensures j <= m < j + |t| ==> s[m] in t
  {
    if j <= m < j + |t| {
      assert s[j..j + |t|][m - j] == s[m];
    }
  }

  /** Text that lies within an occurrence of `pat` is an infix of `pat`. */
  lemma InfixInside(t: string, pat: string, s: string, i: nat, j: nat)
    requires OccursAt(s, pat, i) && InfixAt(t, s, j)
    ensures i <= j && j + |t| <= i + |pat| ==> InfixAt(t, pat, j - i)
  {
    if i <= j && j + |t| <= i + |pat| {
      forall k | 0 <= k < |t|
        ensures pat[j - i + k] == t[k]
      {
        assert s[i..i + |pat|][j - i + k] == s[j..j + |t|][k];
      }
      assert pat[j - i..j - i + |t|] == t;
    }
  }

  /** Text free of braces that is no part of placeholder `pat` survives
      the replacement of `pat`: it cannot overlap the match. */
  lemma ReplaceKeepsText(s: string, pat: string, rep: string, t: string)
    requires Delimited(pat) && IsInfix(t, s)
    requires '{' !in t && '}' !in t && !IsInfix(t, pat)
    ensures IsInfix(t, ReplaceFirst(s, pat, rep))
  {
    var j :| 0 <= j <= |s| && InfixAt(t, s, j);
    if IndexOf(s, pat).Some? {
      var i := IndexOf(s, pat).value;
      BraceAt(pat, s, i, i);
      CharOfInfix(t, s, j, i);
      CharOfInfix(t, s, j, i + |pat| - 1);
      InfixInside(t, pat, s, i, j);
    }
    ReplaceKeepsDisjoint(s, pat, rep, t, j);
  }

  /** A placeholder survives the replacement of a different one: two
      delimited texts that overlap start at the same place and are equal. */
  lemma ReplaceKeepsHole(s: string, pat: string, rep: string, h: string)
    requires Delimited(pat) && Delimited(h) && pat != h && IsInfix(h, s)
    ensures IsInfix(h, ReplaceFirst(s, pat, rep))
  {
    var j :| 0 <= j <= |s| && InfixAt(h, s, j);
    assert OccursAt(s, h, j);
    if IndexOf(s, pat).Some? {
      var i := IndexOf(s, pat).value;
      BraceAt(pat, s, i, j);
      BraceAt(pat, s, i, j + |h| - 1);
      BraceAt(h, s, j, i);
      BraceAt(h, s, j, i + |pat| - 1);
      assert i == j && |h| == |pat| ==> h == pat;
    }
    ReplaceKeepsDisjoint(s, pat, rep, h, j);
  }

  /** Brace-free text that is no part of any placeholder survives the whole
      chain of replacements. */
  lemma {:induction false} ChainKeepsText(s: string, holes: seq<string>, values: seq<string>, t: string)
    requires |holes| == |values|
    requires IsInfix(t, s) && '{' !in t && '}' !in t
    requires forall i :: 0 <= i < |holes| ==> Delimited(holes[i]) && !IsInfix(t, holes[i])
    ensures IsInfix(t, ReplaceInOrder(s, holes, values))
    decreases |holes|
  {
    if holes != [] {
      ReplaceKeepsText(s, holes[0], values[0], t);
      ChainKeepsText(ReplaceFirst(s, holes[0], values[0]), holes[1..], values[1..], t);
    }
  }

  /** The k-th value lands in the result of the chain when its placeholder
      is in the text, differs from the earlier ones, and the value is free
      of braces and `$` and no part of a later placeholder: the earlier
      replacements leave the placeholder alone, the value goes in
      literally, and the later replacements cannot cut into it. */
  lemma {:induction false} ChainPlacesValue(s: string, holes: seq<string>, values: seq<string>, k: nat)
    requires |holes| == |values| && k < |holes|
    requires forall i :: 0 <= i < |holes| ==> Delimited(holes[i])
    requires forall i :: 0 <= i < k ==> holes[i] != holes[k]
    requires IsInfix(holes[k], s)
    requires '$' !in values[k] && '{' !in values[k] && '}' !in values[k]
    requires forall i :: k < i < |holes| ==> !IsInfix(values[k], holes[i])
    ensures IsInfix(values[k], ReplaceInOrder(s, holes, values))
    decreases k
  {
    var next := ReplaceFirst(s, holes[0], values[0]);
    if k == 0 {
      ReplaceInserts(s, holes[0], values[0]);
      ChainKeepsText(next, holes[1..], values[1..], values[0]);
    } else {
      ReplaceKeepsHole(s, holes[0], values[0], holes[k]);
      ChainPlacesValue(next, holes[1..], values[1..], k - 1);
    }
  }

  /** A value free of braces and `$` that is no part of a later
      placeholder is in the prompt, whatever the other fields hold. */
  lemma ValueInPrompt(req: TripRequest, k: nat)
    requires k < |Placeholders|
    requires '$' !in PromptValues(req)[k] && '{' !in PromptValues(req)[k] && '}' !in PromptValues(req)[k]
    requires forall i :: k < i < |Placeholders| ==> !IsInfix(PromptValues(req)[k], Placeholders[i])
    ensures IsInfix(PromptValues(req)[k], RenderPrompt(req))
  {
    PlaceholdersDelimited();
    InterleaveContains(TemplatePieces, Placeholders, k);
    ChainPlacesValue(Template, Placeholders, PromptValues(req), k);
  }

  /** A text holding a character that `p` lacks is no part of `p`. */
  lemma MissingCharNotInfix(t: string, p: string, c: char)
    requires c in t && c !in p
    ensures !IsInfix(t, p)
  {
    var n :| 0 <= n < |t| && t[n] == c;
    forall i | 0 <= i <= |p|
      ensures !InfixAt(t, p, i)
    {
      if i + |t| <= |p| {
        assert p[i..i + |t|][n] == p[i + n];
      }
    }
  }

  /** Interests ["hiking", "food"] show up in the prompt as "hiking, food",
      whatever the other fields hold. */
  lemma HikingFoodInPrompt(req: TripRequest)
    requires req.interests == ["hiking", "food"]
    ensures IsInfix("hiking, food", RenderPrompt(req))
  {
    var v := "hiking, food";
    JoinTwo("hiking", "food", ", ");
    assert PromptValues(req)[4] == v;
    PlainInterests(v);
    forall i | 4 < i < |Placeholders|
      ensures !IsInfix(v, Placeholders[i])
    {
      MissingCharNotInfix(v, Placeholders[i], ',');
    }
    ValueInPrompt(req, 4);
  }

  /** "hiking, food" has no brace and no `$`, and it has a comma, which no
      placeholder after the interests has. */
  lemma PlainInterests(v: string)
    requires v == "hiking, food"
    ensures '$' !in v && '{' !in v && '}' !in v && ',' in v
    ensures forall i :: 4 < i < |Placeholders| ==> ',' !in Placeholders[i]
  {
    assert v[6] == ',';
  }

  // ---------------------------------------------------------------------------
  // Response cleanup
  // ---------------------------------------------------------------------------

  const Fence: string := "```"
  const JsonFence: string := "```json"

  /** The provider's first text part of its first candidate, trimmed, or ""
      when any link of that chain is missing (an empty trimmed text is ""
      already). */
  function FirstCandidateText(part: Option<string>): (r: string)
    ensures Trimmed(r)
    ensures part.None? ==> r == ""
    ensures part.Some? ==> |r| <= |part.value| && IsInfix(r, part.value)
  {
    match part
    case None => ""
    case Some(t) => Trim(t)
  }

  /** An opening "```json" loses 7 characters; failing that, an opening
      "```" loses 3. */
  function StripOpeningFence(t: string): (r: string)
    ensures StartsWith(t, JsonFence) ==> r == t[7..]
    ensures !StartsWith(t, JsonFence) && StartsWith(t, Fence) ==> r == t[3..]
    ensures !StartsWith(t, Fence) ==> r == t
  {
    if StartsWith(t, JsonFence) then t[7..]
    else if StartsWith(t, Fence) then t[3..]
    else t
  }

  /** A closing "```" loses its 3 characters. */
  function StripClosingFence(t: string): (r: string)
    ensures EndsWith(t, Fence) ==> r == t[..|t| - 3]
    ensures !EndsWith(t, Fence) ==> r == t
  {
    if EndsWith(t, Fence) then t[..|t| - 3] else t
  }

  /** The fence handling: opening fence, then closing fence, then trim. The
      result is trimmed and lies inside the text, so it is never longer. */
  function StripFences(t: string): (r: string)
    ensures Trimmed(r)
    ensures |r| <= |t| && IsInfix(r, t)
  {
    var afterClose := StripClosingFence(StripOpeningFence(t));
    FencesInside(t);
    var r := Trim(afterClose);
    InfixTransitive(r, afterClose, t);
    r
  }

  /** What is left after both fences lies inside the text. */
  lemma FencesInside(t: string)
    ensures IsInfix(StripClosingFence(StripOpeningFence(t)), t)
  {
    var afterOpen := StripOpeningFence(t);
    var afterClose := StripClosingFence(afterOpen);
    assert InfixAt(afterClose, t, |t| - |afterOpen|) by {
      assert afterOpen == t[|t| - |afterOpen|..];
      assert afterClose == afterOpen[..|afterClose|];
    }
  }

  /** The whole cleanup of the provider's reply. */
  function CleanResponse(part: Option<string>): (r: string)
    ensures Trimmed(r)
    ensures part.None? ==> r == ""
    ensures part.Some? ==> |r| <= |part.value| && IsInfix(r, part.value)
  {
    var t := FirstCandidateText(part);
    var r := StripFences(t);
    assert part.Some? ==> IsInfix(r, part.value) by {
      if part.Some? { InfixTransitive(r, t, part.value); }
    }
    r
  }

  /** Fence stripping leaves a text alone exactly when it is trimmed and
      neither starts nor ends with "```". */
  lemma StripFencesIdentityIff(t: string)
    ensures StripFences(t) == t <==> Trimmed(t) && !StartsWith(t, Fence) && !EndsWith(t, Fence)
  {
    var afterOpen := StripOpeningFence(t);
    var afterClose := StripClosingFence(afterOpen);
    if StartsWith(t, Fence) {
      assert |afterOpen| <= |t| - 3;
    } else if EndsWith(t, Fence) {
      assert |afterClose| == |t| - 3;
    } else {
      TrimFixedIff(t);
    }
  }

  /** Cleanup leaves a reply alone exactly when it is trimmed and unfenced. */
  lemma CleanResponseIdentityIff(t: string)
    ensures CleanResponse(Some(t)) == t <==> Trimmed(t) && !StartsWith(t, Fence) && !EndsWith(t, Fence)
  {
    TrimFixedIff(t);
    if Trimmed(t) {
      StripFencesIdentityIff(t);
    }
  }

  lemma OpeningFenceGoes(open: string, rest: string)
    requires open == JsonFence || (open == Fence && rest != [] && rest[0] != 'j')
    ensures StripOpeningFence(open + rest) == rest
  {
    var t := open + rest;
    assert t[..|open|] == open && t[|open|..] == rest;
    if open == Fence {
      assert t[3] == rest[0];
      assert !StartsWith(t, JsonFence);
    }
  }

  lemma ClosingFenceGoes(rest: string)
    ensures StripClosingFence(rest + Fence) == rest
  {
    var t := rest + Fence;
    assert t[|t| - 3..] == Fence && t[..|t| - 3] == rest;
  }

  /** Stripping a fenced text: both fences go, then the trim. */
  lemma FencesGo(open: string, bare: string)
    requires open == JsonFence || open == Fence
    requires bare != [] && bare[0] == '\n'
    ensures StripFences(open + (bare + Fence)) == Trim(bare)
  {
    OpeningFenceGoes(open, bare + Fence);
    ClosingFenceGoes(bare);
  }

  /** A trimmed reply goes to fence stripping as it is. */
  lemma CleanTrimmed(t: string)
    requires Trimmed(t)
    ensures CleanResponse(Some(t)) == StripFences(t)
  {
    TrimFixedIff(t);
  }

  /** Cleanup undoes the usual markdown wrapping of a trimmed body: an
      opening fence (tagged "json" or not), a newline, the body, a newline
      and the closing fence. */
  lemma FencedRoundTrip(body: string, open: string)
    requires Trimmed(body) && (open == JsonFence || open == Fence)
    ensures CleanResponse(Some(open + "\n" + body + "\n" + Fence)) == body
  {
    var bare := "\n" + body + "\n";
    var wrapped := open + (bare + Fence);
    assert open + "\n" + body + "\n" + Fence == wrapped;
    assert wrapped[0] == '`' && wrapped[|wrapped| - 1] == '`';
    CleanTrimmed(wrapped);
    FencesGo(open, bare);
    NewlinesTrimmed(body);
  }

  /** Trimming drops the newlines around a trimmed body. */
  lemma NewlinesTrimmed(body: string)
    requires Trimmed(body)
    ensures Trim("\n" + body + "\n") == body
  {
    var ws: string := "\n";
    assert AllWhitespace(ws);
    TrimUnique(ws, body, ws);
  }

  /** One pass removes one opening fence: a doubly fenced text keeps its
      inner fence, which a second pass removes, so fence stripping is not
      idempotent. */
  lemma StripFencesOnePass(body: string)
    requires Trimmed(body) && body != [] && body[|body| - 1] != '`'
    ensures StripFences(JsonFence + JsonFence + body) == JsonFence + body
    ensures StripFences(JsonFence + body) == body
    ensures StripFences(StripFences(JsonFence + JsonFence + body)) != StripFences(JsonFence + JsonFence + body)
  {
    var once := JsonFence + body;
    assert JsonFence + JsonFence + body == JsonFence + once;
    assert once[|once| - 1] == body[|body| - 1];
    OpenedUnfenced(JsonFence, once);
    OpenedUnfenced(JsonFence, body);
  }

  /** When the rest after an opening fence is trimmed and has no closing
      fence, it is the whole result. */
  lemma OpenedUnfenced(open: string, rest: string)
    requires open == JsonFence
    requires Trimmed(rest) && rest != [] && rest[|rest| - 1] != '`'
    ensures StripFences(open + rest) == rest
  {
    OpeningFenceGoes(open, rest);
    assert !EndsWith(rest, Fence);
    TrimFixedIff(rest);
  }

  // ---------------------------------------------------------------------------
  // Trailing-comma repair
  // ---------------------------------------------------------------------------

  /** Character `a` at `i` is directly followed by `b`. */
  predicate PairAt(s: string, i: int, a: char, b: char) {
    0 <= i < |s| - 1 && s[i] == a && s[i + 1] == b
  }

  predicate HasPair(s: string, a: char, b: char) {
    exists i | 0 <= i < |s| :: PairAt(s, i, a, b)
  }

  /** A global replace of "," followed by `close` with `close`: scanning
      left to right, each non-overlapping match loses its comma. */
  function DropCommasBefore(s: string, close: char): (r: string)
    ensures |r| <= |s|
    decreases |s|
  {
    if |s| < 2 then s
    else if s[0] == ',' && s[1] == close then [close] + DropCommasBefore(s[2..], close)
    else [s[0]] + DropCommasBefore(s[1..], close)
  }

  /** The repair: every ",}" becomes "}", then every ",]" becomes "]". */
  function RepairTrailingCommas(s: string): (r: string)
    ensures |r| <= |s|
  {
    DropCommasBefore(DropCommasBefore(s, '}'), ']')
  }

  /** The text with every comma taken out. */
  function WithoutCommas(s: string): string {
    if s == [] then []
    else (if s[0] == ',' then [] else [s[0]]) + WithoutCommas(s[1..])
  }

  /** Dropping commas before a closer keeps every other character, in order. */
  lemma {:induction false} DropKeepsOthers(s: string, close: char)
    requires close != ','
    ensures WithoutCommas(DropCommasBefore(s, close)) == WithoutCommas(s)
    decreases |s|
  {
    if |s| < 2 {
    } else if s[0] == ',' && s[1] == close {
      var rest := DropCommasBefore(s[2..], close);
      DropKeepsOthers(s[2..], close);
      assert ([close] + rest)[1..] == rest;
      assert s[1..][1..] == s[2..];
    } else {
      var rest := DropCommasBefore(s[1..], close);
      DropKeepsOthers(s[1..], close);
      assert ([s[0]] + rest)[1..] == rest;
    }
  }

  /** Without a "," directly before the closer, nothing changes. */
  lemma {:induction false} DropUnchanged(s: string, close: char)
    requires !HasPair(s, ',', close)
    ensures DropCommasBefore(s, close) == s
    decreases |s|
  {
    if |s| >= 2 {
      assert !PairAt(s, 0, ',', close);
      assert !HasPair(s[1..], ',', close) by {
        forall i | 0 <= i < |s[1..]| ensures !PairAt(s[1..], i, ',', close) {
          assert !PairAt(s, i + 1, ',', close);
        }
      }
      DropUnchanged(s[1..], close);
      assert s == [s[0]] + s[1..];
    }
  }

  /** With a "," directly before the closer, the text gets shorter. */
  lemma {:induction false} DropShrinks(s: string, close: char)
    requires HasPair(s, ',', close)
    ensures |DropCommasBefore(s, close)| < |s|
    decreases |s|
  {
    var i :| 0 <= i < |s| && PairAt(s, i, ',', close);
    if s[0] == ',' && s[1] == close {
    } else {
      assert i > 0;
      assert PairAt(s[1..], i - 1, ',', close);
      DropShrinks(s[1..], close);
    }
  }

  /** The repair changes a text exactly when it holds ",}" or ",]". */
  lemma RepairIdentityIff(s: string)
    ensures RepairTrailingCommas(s) == s <==> !HasPair(s, ',', '}') && !HasPair(s, ',', ']')
  {
    var once := DropCommasBefore(s, '}');
    if HasPair(s, ',', '}') {
      DropShrinks(s, '}');
    } else {
      DropUnchanged(s, '}');
      if HasPair(s, ',', ']') {
        DropShrinks(s, ']');
      } else {
        DropUnchanged(s, ']');
      }
    }
  }

  /** The repair only ever deletes commas: all other characters keep their
      order. */
  lemma RepairKeepsOthers(s: string)
    ensures WithoutCommas(RepairTrailingCommas(s)) == WithoutCommas(s)
  {
    DropKeepsOthers(s, '}');
    DropKeepsOthers(DropCommasBefore(s, '}'), ']');
  }

  /** Dropping works piece by piece when the first piece does not end in a
      comma. */
  lemma {:induction false} DropAppend(a: string, b: string, close: char)
    requires a == [] || a[|a| - 1] != ','
    ensures DropCommasBefore(a + b, close) == DropCommasBefore(a, close) + DropCommasBefore(b, close)
    decreases |a|
  {
    var s := a + b;
    if a == [] {
      assert s == b;
    } else if |a| == 1 {
      if b == [] {
        assert s == a;
      } else {
        assert s[0] == a[0] != ',' && s[1..] == b;
      }
    } else {
      assert s[0] == a[0] && s[1] == a[1];
      var k := if a[0] == ',' && a[1] == close then 2 else 1;
      var head := if k == 2 then [close] else [a[0]];
      assert s[k..] == a[k..] + b;
      assert DropCommasBefore(s, close) == head + DropCommasBefore(a[k..] + b, close);
      assert DropCommasBefore(a, close) == head + DropCommasBefore(a[k..], close);
      DropAppend(a[k..], b, close);
    }
  }

  /** Text the repair has nothing to do in, and that does not end in a
      comma an appended closer could pair with. */
  predicate NothingToRepair(a: string) {
    !HasPair(a, ',', '}') && !HasPair(a, ',', ']') && (a == [] || a[|a| - 1] != ',')
  }

  /** A comma just before a final closer goes and the rest stays, for any
      text with nothing to repair before it: {"a":1,"b":2,} becomes
      {"a":1,"b":2}. */
  lemma RepairFinalComma(a: string, close: char)
    requires NothingToRepair(a) && (close == '}' || close == ']')
    ensures RepairTrailingCommas(a + [',', close]) == a + [close]
  {
    var tail := [',', close];
    DropAppend(a, tail, '}');
    DropUnchanged(a, '}');
    DropUnchanged(a, ']');
    if close == '}' {
      assert DropCommasBefore(tail, '}') == [close];
      DropAppend(a, [close], ']');
    } else {
      assert DropCommasBefore(tail, '}') == tail by { DropUnchanged(tail, '}'); }
      DropAppend(a, tail, ']');
      assert DropCommasBefore(tail, ']') == [close];
    }
  }

  /** One pass only: a comma that a deletion brings next to a closer stays,
      so "[1,,]" repairs to "[1,]". */
  lemma RepairSinglePass(a: string)
    requires NothingToRepair(a)
    ensures RepairTrailingCommas(a + [',', ',', ']']) == a + [',', ']']
  {
    var tail := [',', ',', ']'];
    DropAppend(a, tail, '}');
    DropAppend(a, tail, ']');
    DropUnchanged(a, '}');
    DropUnchanged(a, ']');
    assert DropCommasBefore(tail, '}') == tail by { DropUnchanged(tail, '}'); }
    assert tail[1..] == [',', ']'];
    assert DropCommasBefore([',', ']'], ']') == [']'];
    assert DropCommasBefore(tail, ']') == [','] + [']'];
  }

  // ---------------------------------------------------------------------------
  // Parsing with one repair
  // ---------------------------------------------------------------------------

  /** Parse the cleaned text; only if that throws, parse the repaired text,
      whose error (if any) is the one that propagates. `parse` stands for
      `JSON.parse`, with the thrown message as the failure. */
  function ParseWithRepair(text: string, parse: string -> Result<Json, string>): (r: Result<Json, string>)
    ensures parse(text).Success? ==> r == parse(text)
    ensures parse(text).Failure? ==> r == parse(RepairTrailingCommas(text))
  {
    match parse(text)
    case Success(plan) => Success(plan)
    case Failure(_) => parse(RepairTrailingCommas(text))
  }

  /** No third attempt: the outcome depends on `parse` at the cleaned text and
      at its repair, and at the repair only when the first parse failed. */
  lemma ParseConsultsTwoTexts(text: string, p1: string -> Result<Json, string>, p2: string -> Result<Json, string>)
    requires p1(text) == p2(text)
    requires p1(text).Failure? ==> p1(RepairTrailingCommas(text)) == p2(RepairTrailingCommas(text))
    ensures ParseWithRepair(text, p1) == ParseWithRepair(text, p2)
  {
  }

  // ---------------------------------------------------------------------------
  // Summary and the whole request
  // ---------------------------------------------------------------------------

  /** The summary line: "Trip to ", the destination, " for ", the
      duration, " days. Estimated budget: ", the cost and a closing ".". */
  function Summary(destination: string, duration: string, cost: string): (r: string)
    ensures |r| == |destination| + |duration| + |cost| + 39
    ensures StartsWith(r, "Trip to ") && EndsWith(r, ".")
    ensures InfixAt(destination, r, 8)
    ensures InfixAt(duration, r, 13 + |destination|)
    ensures InfixAt(cost, r, 38 + |destination| + |duration|)
    ensures r[8 + |destination|..13 + |destination|] == " for "
    ensures r[13 + |destination| + |duration|..38 + |destination| + |duration|] == " days. Estimated budget: "
  {
    "Trip to " + destination + " for " + duration + " days. Estimated budget: " + cost + "."
  }

  datatype PlanResponse = PlanResponse(plan: Json, summary: string)

  /** The response for a parse outcome. All or nothing: a parse failure
      passes its message on; a null plan fails on reading its estimated
      total, and an estimated total that cannot be converted to text fails
      on rendering it; any other plan is returned, with a summary that
      reports the plan's own estimated total. */
  function Outcome(req: TripRequest, parsed: Result<Json, string>): (r: Result<PlanResponse, string>)
    ensures r.Success? <==> parsed.Success? && Readable(parsed.value)
    ensures parsed.Failure? ==> r == Failure(parsed.error)
    ensures parsed == Success(JNull) ==> r == Failure(NullReadMessage)
    ensures parsed.Success? && !parsed.value.JNull? && !Readable(parsed.value) ==>
              r == Failure(ToPrimitiveMessage)
    ensures r.Success? ==>
            && parsed == Success(r.value.plan)
            && PropertyText(r.value.plan).Success?
            && r.value.summary == Summary(req.destination, req.duration, PropertyText(r.value.plan).value)
  {
    match parsed
    case Failure(message) => Failure(message)
    case Success(plan) =>
      match PropertyText(plan)
      case Failure(message) => Failure(message)
      case Success(cost) => Success(PlanResponse(plan, Summary(req.destination, req.duration, cost)))
  }

  /** The response to the cleaned reply text `c`: parse with one repair,
      then answer. It succeeds exactly when the parse yields a non-null
      plan whose estimated total converts to text, which is then the plan
      returned; when the text and its repair both fail to parse, the second
      parser message is the error. */
  function Answer(req: TripRequest, c: string, parse: string -> Result<Json, string>): (r: Result<PlanResponse, string>)
    ensures var parsed := ParseWithRepair(c, parse);
            (r.Success? <==> parsed.Success? && Readable(parsed.value))
    ensures r.Success? ==>
            && Success(r.value.plan) == ParseWithRepair(c, parse)
            && r.value.summary == Summary(req.destination, req.duration, PropertyText(r.value.plan).value)
    ensures parse(c).Failure? && parse(RepairTrailingCommas(c)).Failure? ==>
              r == Failure(parse(RepairTrailingCommas(c)).error)
  {
    Outcome(req, ParseWithRepair(c, parse))
  }

  /** The POST handler. `generate` stands for the provider call: it fails
      with a message or yields the first candidate's first text part, if
      any. Every failure surfaces as its message, as the catch does; every
      success carries a non-null plan whose estimated total converts to
      text, and the summary of that plan. */
  function HandlePost(
    req: TripRequest,
    generate: string -> Result<Option<string>, string>,
    parse: string -> Result<Json, string>): (r: Result<PlanResponse, string>)
    ensures generate(RenderPrompt(req)).Failure? ==> r == Failure(generate(RenderPrompt(req)).error)
    ensures r.Success? ==>
            && Readable(r.value.plan)
            && r.value.summary == Summary(req.destination, req.duration, PropertyText(r.value.plan).value)
    ensures generate(RenderPrompt(req)).Success? ==>
            var parsed := ParseWithRepair(CleanResponse(generate(RenderPrompt(req)).value), parse);
            && (r.Success? <==> parsed.Success? && Readable(parsed.value))
            && (r.Success? ==> Success(r.value.plan) == parsed)
    ensures generate(RenderPrompt(req)).Success? ==>
            var c := CleanResponse(generate(RenderPrompt(req)).value);
            parse(c).Failure? && parse(RepairTrailingCommas(c)).Failure? ==>
              r == Failure(parse(RepairTrailingCommas(c)).error)
  {
    match generate(RenderPrompt(req))
    case Failure(message) => Failure(message)
    case Success(part) => Answer(req, CleanResponse(part), parse)
  }

  /** Exactly one provider call, with the rendered prompt: providers that
      agree on it give the same outcome. */
  lemma HandlePostAsksOnce(req: TripRequest, g1: string -> Result<Option<string>, string>, g2: string -> Result<Option<string>, string>, parse: string -> Result<Json, string>)
    requires g1(RenderPrompt(req)) == g2(RenderPrompt(req))
    ensures HandlePost(req, g1, parse) == HandlePost(req, g2, parse)
  {
  }

  /** A fenced reply whose object ends in a trailing comma, such as
      {"a":1,"b":2,}: the cleaned text is parsed first, and when that fails
      the text without that comma is what is parsed. */
  lemma FencedTrailingCommaReply(req: TripRequest, body: string, parse: string -> Result<Json, string>)
    requires NothingToRepair(body) && Trimmed(body + [',', '}'])
    requires parse(body + [',', '}']).Failure?
    ensures CleanResponse(Some(JsonFence + "\n" + body + [',', '}'] + "\n" + Fence)) == body + [',', '}']
    ensures Answer(req, body + [',', '}'], parse) == Outcome(req, parse(body + ['}']))
  {
    var cleaned := body + [',', '}'];
    assert JsonFence + "\n" + body + [',', '}'] + "\n" + Fence == JsonFence + "\n" + cleaned + "\n" + Fence;
    FencedRoundTrip(cleaned, JsonFence);
    RepairFinalComma(body, '}');
  }

  /** The fenced reply ```json, newline, {"a":1,}, newline, ``` cleans to
      {"a":1,} and repairs to {"a":1}. */
  lemma WorkedExample(reply: string, cleaned: string, repaired: string)
    requires reply == "```json\n{\"a\":1,}\n```"
    requires cleaned == "{\"a\":1,}" && repaired == "{\"a\":1}"
    ensures CleanResponse(Some(reply)) == cleaned
    ensures RepairTrailingCommas(cleaned) == repaired
  {
    var body := "{\"a\":1";
    assert ',' !in body;
    assert NothingToRepair(body);
    assert cleaned == body + [',', '}'] && repaired == body + ['}'];
    assert reply == JsonFence + "\n" + cleaned + "\n" + Fence;
    FencedRoundTrip(cleaned, JsonFence);
    RepairFinalComma(body, '}');
  }

  /** A reply whose cleaned text fails to parse, and whose repair fails
      too, fails the request with the second parser message, and no plan is
      returned; when the repair had nothing to remove, that message is the
      one the first parse gave. */
  lemma UnrepairableReply(
    req: TripRequest,
    generate: string -> Result<Option<string>, string>,
    parse: string -> Result<Json, string>,
    part: Option<string>)
    requires generate(RenderPrompt(req)) == Success(part)
    requires parse(CleanResponse(part)).Failure?
    requires parse(RepairTrailingCommas(CleanResponse(part))).Failure?
    ensures HandlePost(req, generate, parse) == Failure(parse(RepairTrailingCommas(CleanResponse(part))).error)
    ensures !HasPair(CleanResponse(part), ',', '}') && !HasPair(CleanResponse(part), ',', ']') ==>
              HandlePost(req, generate, parse) == Failure(parse(CleanResponse(part)).error)
  {
    RepairIdentityIff(CleanResponse(part));
  }

  /** A plan whose estimated total is a string has that string in its
      summary. */
  lemma StringCostSummary(req: TripRequest, plan: map<string, Json>, cost: string)
    requires CostKey in plan && plan[CostKey] == JString(cost)
    ensures Outcome(req, Success(JObject(plan))) == Success(PlanResponse(JObject(plan), Summary(req.destination, req.duration, cost)))
  {
    assert PropertyText(JObject(plan)) == Success(cost);
  }

  /** Destination "Paris", duration 5 and an estimated total of "$2000"
      give the summary "Trip to Paris for 5 days. Estimated budget: $2000.". */
  lemma ParisSummary(req: TripRequest, plan: map<string, Json>)
    requires req.destination == "Paris" && req.duration == "5"
    requires plan == map[CostKey := JString("$2000")]
    ensures Outcome(req, Success(JObject(plan)))
            == Success(PlanResponse(JObject(plan), "Trip to Paris for 5 days. Estimated budget: $2000."))
  {
    StringCostSummary(req, plan, "$2000");
    ParisText();
  }

  lemma ParisText()
    ensures Summary("Paris", "5", "$2000") == "Trip to Paris for 5 days. Estimated budget: $2000."
  {
    assert "Trip to " + "Paris" == "Trip to Paris";
    assert "Trip to Paris" + " for " == "Trip to Paris for ";
    assert "Trip to Paris for " + "5" == "Trip to Paris for 5";
    assert "Trip to Paris for 5" + " days. Estimated budget: " == "Trip to Paris for 5 days. Estimated budget: ";
    assert "Trip to Paris for 5 days. Estimated budget: " + "$2000" == "Trip to Paris for 5 days. Estimated budget: $2000";
    assert "Trip to Paris for 5 days. Estimated budget: $2000" + "." == "Trip to Paris for 5 days. Estimated budget: $2000.";
  }

  /** A plan whose estimated total is an object with its own "toString"
      field fails with the conversion's TypeError message, as the catch
      passes it on, and so does one whose total is an array holding such an
      object. */
  lemma UnconvertibleCostFails(req: TripRequest, plan: map<string, Json>, cost: map<string, Json>)
    requires "toString" in cost
    requires CostKey in plan && (plan[CostKey] == JObject(cost) || plan[CostKey] == JArray([JObject(cost)]))
    ensures Outcome(req, Success(JObject(plan))) == Failure(ToPrimitiveMessage)
  {
    assert !Stringifiable(JArray([JObject(cost)]).items[0]);
  }

  /** A plan without an estimated total still succeeds; its summary says
      "undefined". */
  lemma MissingCostSummary(req: TripRequest, plan: map<string, Json>)
    requires CostKey !in plan
    ensures Outcome(req, Success(JObject(plan))) == Success(PlanResponse(JObject(plan), Summary(req.destination, req.duration, "undefined")))
  {
    assert PropertyText(JObject(plan)) == Success("undefined");
  }
}
