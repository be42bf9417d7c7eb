/** `summarize_doc`: one completion call per chunk of the cleaned text, then one call that
    combines the partial summaries, with a prompt chosen by whether actions were found. */
module Summary {

  import opened Wrappers
  import opened Text
  import opened Json
  import opened JsonRepair
  import opened Prompts
  import opened Completion
  import opened Chunker
  import opened Cleaner
  import opened Actions

  const NoMaterial := "No material content in this section."
  const NoSummary := "No summary available."
  /** The combining call asks for at most this many tokens. */
  const FinalMaxTokens: nat := 400

  function SummaryPrompts(title: string, chunks: seq<string>): seq<Prompt> {
    seq(|chunks|, i requires 0 <= i < |chunks| => ChunkSummary(i + 1, title, chunks[i]))
  }

  /** A chunk's partial summary: its reply, or the fallback when the call failed. */
  function Partial(reply: string): (r: string)
    ensures r == NoMaterial || (r == reply && !Failed(reply))
    ensures !Failed(reply) ==> r == reply
  {
    if Failed(reply) then NoMaterial else reply
  }

  function Partials(replies: seq<string>): (r: seq<string>)
    ensures |r| == |replies|
  {
    seq(|replies|, i requires 0 <= i < |replies| => Partial(replies[i]))
  }

  /** `actions_json` is non-empty and repairs to a non-empty list. */
  predicate HasActions(c: Codec, actionsJson: string) {
    && actionsJson != []
    && match c.parse(Repair(c, actionsJson))
       case Some(JArray(xs)) => |xs| > 0
       case _ => false
  }

  /** The combining prompt: the compliance one when there are actions, else the one that
      allows an "administrative" verdict. */
  function FinalPrompt(c: Codec, title: string, combined: string, actionsJson: string): (p: Prompt)
    ensures p.ComplianceSynthesis? <==> HasActions(c, actionsJson)
    ensures (p.ComplianceSynthesis? || p.AdministrativeSynthesis?) && p.title == title && p.summaries == combined
  {
    if HasActions(c, actionsJson) then ComplianceSynthesis(title, combined)
    else AdministrativeSynthesis(title, combined)
  }

  /** The summary returned: the combining reply, or the fallback when that call failed. */
  function Final(reply: string): (r: string)
    ensures r == NoSummary || (r == reply && !Failed(reply))
    ensures !Failed(reply) ==> r == reply
  {
    if Failed(reply) then NoSummary else reply
  }

  /** The text `summarize_doc(text, title, actions_json)` returns. */
  function SummaryOf(c: Codec, svc: Service, cfg: Config, text: string, title: string, actionsJson: string): string {
    var partials := Partials(Replies(c, svc, cfg, SummaryPrompts(title, Chunks(text)), ChunkMaxTokens));
    Final(Reply(c, svc, cfg, FinalPrompt(c, title, Join(partials, "\n"), actionsJson), FinalMaxTokens))
  }

  /** `summarize_doc(text, title, actions_json)`: also gives the prompts sent, in order. */
  method SummarizeDoc(c: Codec, svc: Service, cfg: Config, text: string, title: string, actionsJson: string)
    returns (r: string, prompts: seq<Prompt>)
    ensures |prompts| == |Chunks(text)| + 1
    ensures prompts[..|Chunks(text)|] == SummaryPrompts(title, Chunks(text))
    ensures prompts[|Chunks(text)|] ==
              FinalPrompt(c, title,
                Join(Partials(Replies(c, svc, cfg, prompts[..|Chunks(text)|], ChunkMaxTokens)), "\n"),
                actionsJson)
    ensures r == Final(Reply(c, svc, cfg, prompts[|Chunks(text)|], FinalMaxTokens))
    ensures r == SummaryOf(c, svc, cfg, text, title, actionsJson)
  {
    var cleaned := CleanRbiHeaders(text);
    var chunks := ChunkText(cleaned, ChunkWords);
    var summaries;
    summaries, prompts := SummarizeChunks(c, svc, cfg, title, chunks);
    var finalPrompt := ChooseFinalPrompt(c, title, Join(summaries, "\n"), actionsJson);
    var final, _ := CallOllama(c, svc, cfg, finalPrompt, FinalMaxTokens, DefaultRetries);
    assert (prompts + [finalPrompt])[..|chunks|] == prompts;
    prompts := prompts + [finalPrompt];
    r := if !Failed(final) then final else NoSummary;
  }

  /** The loop of `summarize_doc`: one call per chunk, each reply or its fallback kept. */
  method SummarizeChunks(c: Codec, svc: Service, cfg: Config, title: string, chunks: seq<string>)
    returns (summaries: seq<string>, prompts: seq<Prompt>)
    ensures prompts == SummaryPrompts(title, chunks)
    ensures summaries == Partials(Replies(c, svc, cfg, prompts, ChunkMaxTokens))
  {
    summaries := [];
    var replies: seq<string> := [];
    prompts := [];
    var i := 0;
    while i < |chunks|
      invariant 0 <= i <= |chunks|
      invariant prompts == SummaryPrompts(title, chunks)[..i]
      invariant replies == Replies(c, svc, cfg, prompts, ChunkMaxTokens)
      invariant summaries == Partials(replies)
    {
      var prompt := ChunkSummary(i + 1, title, chunks[i]);
      var result, _ := CallOllama(c, svc, cfg, prompt, ChunkMaxTokens, DefaultRetries);
      RepliesStep(c, svc, cfg, prompts, prompt, ChunkMaxTokens, result);
      PartialsStep(replies, result);
      replies := replies + [result];
      if Failed(result) {
        result := NoMaterial;
      }
      summaries := summaries + [result];
      SummaryPromptsStep(title, chunks, prompts, i);
      prompts := prompts + [prompt];
      i := i + 1;
    }
    SummaryPromptsDone(title, chunks, prompts);
  }

  /** The prompt `summarize_doc` ends with: compliance when `actions_json` repairs to a
      non-empty list, administrative otherwise. */
  method ChooseFinalPrompt(c: Codec, title: string, combined: string, actionsJson: string)
    returns (p: Prompt)
    ensures p == FinalPrompt(c, title, combined, actionsJson)
  {
    var hasActions := false;
    if actionsJson != [] {
      var cleanedActions := Repair(c, actionsJson);
      match c.parse(cleanedActions)
      case Some(JArray(xs)) =>
        hasActions := |xs| > 0;
      case _ =>
    }
    p := if hasActions then ComplianceSynthesis(title, combined)
         else AdministrativeSynthesis(title, combined);
  }

  lemma SummaryPromptsStep(title: string, chunks: seq<string>, prompts: seq<Prompt>, i: nat)
    requires i < |chunks|
    requires prompts == SummaryPrompts(title, chunks)[..i]
    ensures prompts + [ChunkSummary(i + 1, title, chunks[i])] == SummaryPrompts(title, chunks)[..i + 1]
  {
  }

  lemma SummaryPromptsDone(title: string, chunks: seq<string>, prompts: seq<Prompt>)
    requires prompts == SummaryPrompts(title, chunks)[..|chunks|]
    ensures prompts == SummaryPrompts(title, chunks)
  {
  }

  lemma PartialsStep(replies: seq<string>, reply: string)
    ensures Partials(replies + [reply]) == Partials(replies) + [Partial(reply)]
  {
  }

  /** Neither fallback looks like a failed call: neither has the sentinel's capital `L`. */
  lemma FallbacksDoNotFail()
    ensures !Failed(NoMaterial) && !Failed(NoSummary)
  {
    assert Sentinel[0] == 'L';
    assert 'L' !in NoMaterial && 'L' !in NoSummary;
    MissingCharNotContained(NoMaterial, Sentinel, 0);
    MissingCharNotContained(NoSummary, Sentinel, 0);
  }

  lemma {:induction false} MissingCharNotContained(s: string, p: string, k: nat)
    requires k < |p| && p[k] !in s
    ensures !Contains(s, p)
    decreases |s|
  {
    PrefixChars(s, p, k);
    if s != [] {
      MissingCharNotContained(s[1..], p, k);
    }
  }

  lemma PrefixChars(s: string, p: string, k: nat)
    requires k < |p|
    ensures StartsWith(s, p) ==> p[k] in s
  {
    if StartsWith(s, p) {
      assert s[..|p|][k] == s[k];
    }
  }

  /** Every partial summary is a real reply or the fallback, never a failure marker. */
  lemma PartialsNeverFail(replies: seq<string>)
    ensures forall i | 0 <= i < |replies| :: !Failed(Partials(replies)[i])
  {
    FallbacksDoNotFail();
  }

  /** The compliance prompt is chosen exactly when the extracted list is non-empty. */
  lemma ActionsDecidePrompt(c: Codec, xs: seq<Json>)
    requires Lawful(c) && Canonical(c, JArray(xs))
    requires '`' !in c.dump(JArray(xs))
    ensures HasActions(c, c.dump(JArray(xs))) <==> |xs| > 0
  {
    RepairOfDump(c, JArray(xs));
    assert c.parse(c.dump(JArray(xs))) == Some(JArray(xs));
  }

  /** No actions at all (`actions_json` empty) always leads to the administrative prompt. */
  lemma NoActionsText(c: Codec, title: string, combined: string)
    ensures FinalPrompt(c, title, combined, "").AdministrativeSynthesis?
  {
  }
}
