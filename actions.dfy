/** `extract_actions`: asks the completion service for the action points of each chunk of
    the cleaned text and collects them into one JSON array. */
module Actions {

  import opened Wrappers
  import opened Text
  import opened Json
  import opened JsonRepair
  import opened Prompts
  import opened Completion
  import opened Chunker
  import opened Cleaner

  /** Both per-chunk loops cut the cleaned text into pieces of this many words. */
  const ChunkWords: nat := 400
  /** Both per-chunk loops ask for at most this many tokens per chunk. */
  const ChunkMaxTokens: nat := 300

  /** The chunks of the document both loops work on. */
  function Chunks(text: string): seq<string> {
    ChunkText(Clean(text), ChunkWords)
  }

  function ActionPrompts(title: string, chunks: seq<string>): seq<Prompt> {
    seq(|chunks|, i requires 0 <= i < |chunks| => ActionExtraction(i + 1, title, chunks[i]))
  }

  /** What one chunk's reply adds to the list: nothing when the call failed; otherwise what
      `list.extend` takes from the repaired reply, and nothing when that raises. */
  function Contribution(c: Codec, reply: string): seq<Json> {
    if Failed(reply) then []
    else match c.parse(Repair(c, reply))
      case None => []
      case Some(v) => Elements(v).GetOr([])
  }

  /** The list built from the chunks' replies, in chunk order. */
  function Collected(c: Codec, replies: seq<string>): seq<Json> {
    FlatMap(ContributionOf(c), replies)
  }

  function ContributionOf(c: Codec): string -> seq<Json> {
    reply => Contribution(c, reply)
  }

  /** The text `extract_actions(text, title)` returns. */
  function ActionsJson(c: Codec, svc: Service, cfg: Config, text: string, title: string): string {
    c.dump(JArray(Collected(c, Replies(c, svc, cfg, ActionPrompts(title, Chunks(text)), ChunkMaxTokens))))
  }

  /** `extract_actions(text, title)`: also gives the prompts sent, one per chunk, in order. */
  method ExtractActions(c: Codec, svc: Service, cfg: Config, text: string, title: string)
    returns (r: string, prompts: seq<Prompt>)
    ensures prompts == ActionPrompts(title, Chunks(text))
    ensures r == c.dump(JArray(Collected(c, Replies(c, svc, cfg, prompts, ChunkMaxTokens))))
    ensures r == ActionsJson(c, svc, cfg, text, title)
  {
    var cleaned := CleanRbiHeaders(text);
    var chunks := ChunkText(cleaned, ChunkWords);
    var all;
    all, prompts := CollectActions(c, svc, cfg, title, chunks);
    r := c.dump(JArray(all));
  }

  /** The loop of `extract_actions`: one call per chunk, the replies' lists concatenated. */
  method CollectActions(c: Codec, svc: Service, cfg: Config, title: string, chunks: seq<string>)
    returns (all: seq<Json>, prompts: seq<Prompt>)
    ensures prompts == ActionPrompts(title, chunks)
    ensures all == Collected(c, Replies(c, svc, cfg, prompts, ChunkMaxTokens))
  {
    all := [];
    var replies: seq<string> := [];
    prompts := [];
    var i := 0;
    while i < |chunks|
      invariant 0 <= i <= |chunks|
      invariant prompts == ActionPrompts(title, chunks)[..i]
      invariant replies == Replies(c, svc, cfg, prompts, ChunkMaxTokens)
      invariant all == Collected(c, replies)
    {
      var prompt := ActionExtraction(i + 1, title, chunks[i]);
      var result, _ := CallOllama(c, svc, cfg, prompt, ChunkMaxTokens, DefaultRetries);
      RepliesStep(c, svc, cfg, prompts, prompt, ChunkMaxTokens, result);
      CollectStep(c, replies, result);
      all := all + Contribution(c, result);
      replies := replies + [result];
      PromptsStep(title, chunks, prompts, i);
      prompts := prompts + [prompt];
      i := i + 1;
    }
    assert ActionPrompts(title, chunks)[..i] == ActionPrompts(title, chunks);
  }

  lemma CollectStep(c: Codec, replies: seq<string>, reply: string)
    ensures Collected(c, replies + [reply]) == Collected(c, replies) + Contribution(c, reply)
  {
    assert (replies + [reply])[..|replies|] == replies;
  }

  lemma PromptsStep(title: string, chunks: seq<string>, prompts: seq<Prompt>, i: nat)
    requires i < |chunks|
    requires prompts == ActionPrompts(title, chunks)[..i]
    ensures prompts + [ActionExtraction(i + 1, title, chunks[i])] == ActionPrompts(title, chunks)[..i + 1]
  {
  }

  /** Collecting over two runs of replies is collecting over each, one after the other. */
  lemma CollectedConcat(c: Codec, a: seq<string>, b: seq<string>)
    ensures Collected(c, a + b) == Collected(c, a) + Collected(c, b)
  {
    FlatMapConcat(ContributionOf(c), a, b);
  }

  /** When every call fails, `extract_actions` returns `"[]"`. */
  lemma {:induction false} AllFailedGivesEmptyList(c: Codec, replies: seq<string>)
    requires Lawful(c)
    requires forall i | 0 <= i < |replies| :: Failed(replies[i])
    ensures Collected(c, replies) == []
    ensures c.dump(JArray(Collected(c, replies))) == "[]"
    decreases |replies|
  {
    if replies != [] {
      var init := replies[..|replies| - 1];
      AllFailedGivesEmptyList(c, init);
      CollectStep(c, init, replies[|replies| - 1]);
      assert init + [replies[|replies| - 1]] == replies;
    }
  }

  /** Every item of the list `extract_actions` builds is a value `json.loads` can return, so
      the list serialises to text that parses back to it. */
  lemma {:induction false} CollectedCanonical(c: Codec, replies: seq<string>)
    requires Lawful(c)
    ensures Canonical(c, JArray(Collected(c, replies)))
    decreases |replies|
  {
    if replies != [] {
      var init := replies[..|replies| - 1];
      var last := replies[|replies| - 1];
      CollectedCanonical(c, init);
      CollectStep(c, init, last);
      assert init + [last] == replies;
      ContributionCanonical(c, last);
      var xs, ys := Collected(c, init), Contribution(c, last);
      forall i | 0 <= i < |xs + ys| ensures Canonical(c, (xs + ys)[i]) {
        if i < |xs| {
          assert (xs + ys)[i] == xs[i];
        } else {
          assert (xs + ys)[i] == ys[i - |xs|];
        }
      }
    }
  }

  lemma ContributionCanonical(c: Codec, reply: string)
    requires Lawful(c)
    ensures forall i | 0 <= i < |Contribution(c, reply)| :: Canonical(c, Contribution(c, reply)[i])
  {
  }

  /** A reply that did not fail contributes what `extend` takes from its repaired value. */
  lemma ContributionOfParsed(c: Codec, reply: string, v: Json)
    requires !Failed(reply)
    requires c.parse(Repair(c, reply)) == Some(v)
    ensures Contribution(c, reply) == Elements(v).GetOr([])
  {
  }

  /** Serialised JSON without backticks repairs to the value it serialises. */
  lemma ParsedDump(c: Codec, v: Json)
    requires Lawful(c) && Canonical(c, v)
    requires '`' !in c.dump(v)
    ensures c.parse(Repair(c, c.dump(v))) == Some(v)
  {
    RepairOfDump(c, v);
  }

  /** A reply that is a serialised array contributes its items. */
  lemma ArrayReplyContributesItems(c: Codec, xs: seq<Json>)
    requires Lawful(c) && Canonical(c, JArray(xs))
    requires '`' !in c.dump(JArray(xs))
    requires !Contains(c.dump(JArray(xs)), Sentinel)
    ensures Contribution(c, c.dump(JArray(xs))) == xs
  {
    ParsedDump(c, JArray(xs));
    ContributionOfParsed(c, c.dump(JArray(xs)), JArray(xs));
  }

  /** A reply wrapped in a ```` ```json ```` fence contributes the items of the array inside it. */
  lemma FencedArrayReplyContributesItems(c: Codec, xs: seq<Json>)
    requires Lawful(c) && Canonical(c, JArray(xs))
    requires '`' !in c.dump(JArray(xs))
    requires !Contains("```json\n" + c.dump(JArray(xs)) + "\n```", Sentinel)
    ensures Contribution(c, "```json\n" + c.dump(JArray(xs)) + "\n```") == xs
  {
    FencedDumpParsed(c, JArray(xs));
    ContributionOfParsed(c, "```json\n" + c.dump(JArray(xs)) + "\n```", JArray(xs));
  }

  /** Serialised JSON without backticks, fenced, repairs to the value it serialises. */
  lemma FencedDumpParsed(c: Codec, v: Json)
    requires Lawful(c) && Canonical(c, v)
    requires '`' !in c.dump(v)
    ensures c.parse(Repair(c, "```json\n" + c.dump(v) + "\n```")) == Some(v)
  {
    var body := c.dump(v);
    assert c.parse(body) == Some(v);
    assert body != [] && !IsSpace(body[0]) && !IsSpace(body[|body| - 1]);
    FencedReplyUnwrapped(c, body, v);
  }

  /** A reply that is a serialised object contributes its keys, as `list.extend` does. */
  lemma ObjectReplyContributesKeys(c: Codec, ms: seq<(string, Json)>)
    requires Lawful(c) && Canonical(c, JObject(ms))
    requires '`' !in c.dump(JObject(ms))
    requires !Contains(c.dump(JObject(ms)), Sentinel)
    ensures forall k :: JString(k) in Contribution(c, c.dump(JObject(ms))) <==> HasKey(ms, k)
  {
    ParsedDump(c, JObject(ms));
    ContributionOfParsed(c, c.dump(JObject(ms)), JObject(ms));
    KeysAsStrings(ms);
  }

  lemma KeysAsStrings(ms: seq<(string, Json)>)
    ensures forall k :: JString(k) in Elements(JObject(ms)).value <==> HasKey(ms, k)
  {
    var names := Names(ms);
    var r := Elements(JObject(ms)).value;
    forall k ensures JString(k) in r <==> k in names {
      if k in names {
        var i :| 0 <= i < |names| && names[i] == k;
        assert r[i] == JString(k);
      }
    }
  }

  /** A reply that repairs to a number, a boolean or null adds nothing (`extend` raises). */
  lemma ScalarReplySkipped(c: Codec, reply: string, v: Json)
    requires c.parse(Repair(c, reply)) == Some(v)
    requires v.JNumber? || v.JBool? || v.JNull?
    ensures Contribution(c, reply) == []
  {
  }
}
