/** `call_ollama`: posts a prompt to the local completion service, retrying on exceptions,
    and folds the streamed JSON records into one reply. The service is an oracle giving
    the outcome of each attempt; the network and the streaming transport are not modelled. */
module Completion {

  import opened Wrappers
  import opened Text
  import opened Json
  import opened Prompts

  /** The reply that stands for a failed call. */
  const Sentinel := "LLM_CALL_FAILED"
  const DefaultMaxTokens: nat := 512
  const DefaultRetries: nat := 2

  /** Settings the processor imports but the configuration module never defines; they are
      inputs of the model. */
  datatype Config = Config(ollamaUrl: string, ollamaModel: string, maxWorkers: nat)

  /** The POST: endpoint, and the payload's `model`, `prompt` and `max_tokens`. */
  datatype Request = Request(url: string, model: string, prompt: Prompt, maxTokens: nat)

  /** One line of the streamed body: UTF-8 text, or bytes that do not decode. */
  datatype StreamLine = Line(text: string) | Undecodable

  /** One attempt: the post, the status check or the stream raised, or the stream
      delivered these lines. */
  datatype Attempt = Raised | Streamed(lines: seq<StreamLine>)

  /** The completion service: the outcome of attempt `n` (from 0) of a request. */
  type Service = (Request, nat) -> Attempt

  /** `s.rstrip("/")`. */
  function TrimSlashes(s: string): (r: string)
    ensures r == [] || r[|r| - 1] != '/'
    ensures StartsWith(s, r) && forall k | |r| <= k < |s| :: s[k] == '/'
  {
    if s != [] && s[|s| - 1] == '/' then TrimSlashes(s[..|s| - 1]) else s
  }

  function RequestFor(cfg: Config, prompt: Prompt, maxTokens: nat): (r: Request)
    ensures EndsWith(r.url, "/api/generate")
    ensures r.prompt == prompt && r.maxTokens == maxTokens && r.model == cfg.ollamaModel
  {
    Request(TrimSlashes(cfg.ollamaUrl) + "/api/generate", cfg.ollamaModel, prompt, maxTokens)
  }

  /** The endpoint does not depend on how many slashes end the configured base URL. */
  lemma EndpointIgnoresTrailingSlash(cfg: Config, prompt: Prompt, maxTokens: nat)
    ensures RequestFor(cfg.(ollamaUrl := cfg.ollamaUrl + "/"), prompt, maxTokens)
            == RequestFor(cfg, prompt, maxTokens)
  {
    assert (cfg.ollamaUrl + "/")[..|cfg.ollamaUrl|] == cfg.ollamaUrl;
  }

  /** `data[key]` appended to a string: only a JSON string can be appended. */
  function AsText(v: Json): Result<string> {
    if v.JString? then Ok(v.s) else Err("TypeError")
  }

  /** What one decoded record adds to the reply: `data["response"]` when `"response" in data`,
      else `data["output"]` when `"output" in data`, else nothing. `in` on a list tests
      membership, on a string tests for a substring (and indexing either then raises), and
      on a number, boolean or null raises. */
  function Field(v: Json): (r: Result<string>)
    ensures v.JObject? && Get(v.members, "response").Some? && Get(v.members, "response").value.JString?
            ==> r == Ok(Get(v.members, "response").value.s)
    ensures v.JObject? && Get(v.members, "response").Some? && !Get(v.members, "response").value.JString?
            ==> r.Err?
    ensures v.JObject? && !HasKey(v.members, "response") && Get(v.members, "output").Some?
            && Get(v.members, "output").value.JString?
            ==> r == Ok(Get(v.members, "output").value.s)
    ensures v.JObject? && !HasKey(v.members, "response") && Get(v.members, "output").Some?
            && !Get(v.members, "output").value.JString?
            ==> r.Err?
    ensures v.JObject? && !HasKey(v.members, "response") && !HasKey(v.members, "output") ==> r == Ok("")
    ensures v.JNull? || v.JBool? || v.JNumber? ==> r.Err?
  {
    match v
    case JObject(ms) =>
      if HasKey(ms, "response") then AsText(Get(ms, "response").value)
      else if HasKey(ms, "output") then AsText(Get(ms, "output").value)
      else Ok("")
    case JArray(items) =>
      if JString("response") in items || JString("output") in items then Err("TypeError") else Ok("")
    case JString(s) =>
      if Contains(s, "response") || Contains(s, "output") then Err("TypeError") else Ok("")
    case _ => Err("TypeError")
  }

  /** One streamed line: blank lines and lines that are not JSON add nothing; a line that is
      not UTF-8 raises. */
  function Record(c: Codec, line: StreamLine): Result<string> {
    match line
    case Undecodable => Err("UnicodeDecodeError")
    case Line(t) =>
      if t == [] then Ok("")
      else match c.parse(t)
        case None => Ok("")
        case Some(v) => Field(v)
  }

  /** The reply accumulated over `lines`, or the exception that ends the attempt. */
  function Accumulate(c: Codec, lines: seq<StreamLine>): Result<string> {
    if lines == [] then Ok("")
    else match Accumulate(c, lines[..|lines| - 1])
      case Err(e) => Err(e)
      case Ok(acc) =>
        match Record(c, lines[|lines| - 1])
        case Err(e) => Err(e)
        case Ok(s) => Ok(acc + s)
  }

  /** What an attempt returns, or None when it raises: the stripped reply, or the sentinel
      when nothing was accumulated. */
  function Outcome(c: Codec, a: Attempt): (r: Option<string>)
    ensures r.Some? ==> r.value == Sentinel || Strip(r.value) == r.value
    ensures a.Raised? ==> r.None?
    ensures a.Streamed? && Accumulate(c, a.lines).Err? ==> r.None?
    ensures a.Streamed? && Accumulate(c, a.lines) == Ok([]) ==> r == Some(Sentinel)
    ensures a.Streamed? && Accumulate(c, a.lines).Ok? && Accumulate(c, a.lines).value != []
            ==> r == Some(Strip(Accumulate(c, a.lines).value))
  {
    match a
    case Raised => None
    case Streamed(lines) =>
      match Accumulate(c, lines)
      case Err(_) => None
      case Ok(acc) =>
        if acc == [] then Some(Sentinel)
        else
          StripClean(Strip(acc));
          Some(Strip(acc))
  }

  /** Accumulating over two pieces of a stream is accumulating over each, in order. */
  lemma {:induction false} AccumulateConcat(c: Codec, a: seq<StreamLine>, b: seq<StreamLine>)
    ensures Accumulate(c, a + b) ==
              match Accumulate(c, a)
              case Err(e) => Err(e)
              case Ok(x) =>
                match Accumulate(c, b)
                case Err(e) => Err(e)
                case Ok(y) => Ok(x + y)
    decreases |b|
  {
    if b == [] {
      assert a + b == a;
      match Accumulate(c, a)
      case Err(_) =>
      case Ok(x) => assert x + "" == x;
    } else {
      assert (a + b)[..|a + b| - 1] == a + b[..|b| - 1];
      assert (a + b)[|a + b| - 1] == b[|b| - 1];
      AccumulateConcat(c, a, b[..|b| - 1]);
      match Accumulate(c, a)
      case Err(_) =>
      case Ok(x) =>
        match Accumulate(c, b[..|b| - 1])
        case Err(_) =>
        case Ok(y) =>
          match Record(c, b[|b| - 1])
          case Err(_) =>
          case Ok(s) => assert x + y + s == x + (y + s);
    }
  }

  lemma AccumulateStep(c: Codec, lines: seq<StreamLine>, j: nat)
    requires j < |lines|
    ensures Accumulate(c, lines[..j + 1]) ==
              match Accumulate(c, lines[..j])
              case Err(e) => Err(e)
              case Ok(acc) =>
                match Record(c, lines[j])
                case Err(e) => Err(e)
                case Ok(s) => Ok(acc + s)
  {
    assert lines[..j + 1][..j] == lines[..j];
  }

  /** Once a line raises, the rest of the stream cannot rescue the attempt. */
  lemma RaisedPrefix(c: Codec, lines: seq<StreamLine>, j: nat)
    requires j <= |lines|
    requires Accumulate(c, lines[..j]).Err?
    ensures Accumulate(c, lines).Err?
  {
    assert lines == lines[..j] + lines[j..];
    AccumulateConcat(c, lines[..j], lines[j..]);
  }

  /** When no line raises, the reply is the in-order concatenation of what each line adds. */
  lemma {:induction false} AccumulateInOrder(c: Codec, lines: seq<StreamLine>)
    requires forall i | 0 <= i < |lines| :: Record(c, lines[i]).Ok?
    ensures Accumulate(c, lines) ==
              Ok(Flatten(seq(|lines|, i requires 0 <= i < |lines| => Record(c, lines[i]).value)))
    decreases |lines|
  {
    if lines != [] {
      var init := lines[..|lines| - 1];
      AccumulateInOrder(c, init);
      var all := seq(|lines|, i requires 0 <= i < |lines| => Record(c, lines[i]).value);
      assert all[..|all| - 1] == seq(|init|, i requires 0 <= i < |init| => Record(c, init[i]).value);
    }
  }

  /** A stream whose lines all add nothing accumulates the empty reply. */
  lemma {:induction false} SilentAccumulate(c: Codec, lines: seq<StreamLine>)
    requires forall i | 0 <= i < |lines| :: Record(c, lines[i]) == Ok("")
    ensures Accumulate(c, lines) == Ok("")
    decreases |lines|
  {
    if lines != [] {
      var init := lines[..|lines| - 1];
      assert forall i | 0 <= i < |init| :: init[i] == lines[i];
      SilentAccumulate(c, init);
      assert Record(c, lines[|lines| - 1]) == Ok("");
      assert "" + "" == "";
    }
  }

  /** An attempt that streams nothing usable returns the sentinel, and that first such
      attempt ends the call: it is not retried. */
  lemma SilentAttemptNotRetried(c: Codec, svc: Service, req: Request, retries: nat, lines: seq<StreamLine>)
    requires retries > 0 && svc(req, 0) == Streamed(lines)
    requires forall i | 0 <= i < |lines| :: Record(c, lines[i]) == Ok("")
    ensures Outcome(c, Streamed(lines)) == Some(Sentinel)
    ensures Ask(c, svc, req, retries) == (Sentinel, 1)
  {
    SilentAccumulate(c, lines);
    assert Outcomes(c, svc, req, retries)[0] == Some(Sentinel);
  }

  /** Blank lines and lines that are not JSON add nothing. */
  lemma NoiseSkipped(c: Codec, t: string)
    requires t == [] || c.parse(t).None?
    ensures Record(c, Line(t)) == Ok("")
  {
  }

  /** A record carrying both fields contributes its `response`. */
  lemma ResponseBeforeOutput(c: Codec, s: string, o: string)
    requires Lawful(c)
    ensures Record(c, Line(c.dump(JObject([("output", JString(o)), ("response", JString(s))])))) == Ok(s)
  {
    var v := JObject([("output", JString(o)), ("response", JString(s))]);
    assert Canonical(c, v);
    assert c.parse(c.dump(v)) == Some(v);
    assert c.dump(v) != [];
    assert HasKey(v.members, "response") by { assert v.members[1].0 == "response"; }
  }

  /** A record with no `response` field contributes its `output`. */
  lemma OutputWhenNoResponse(c: Codec, o: string)
    requires Lawful(c)
    ensures Record(c, Line(c.dump(JObject([("output", JString(o))])))) == Ok(o)
  {
    var v := JObject([("output", JString(o))]);
    assert Canonical(c, v);
    assert c.parse(c.dump(v)) == Some(v);
    assert c.dump(v) != [];
    assert HasKey(v.members, "output") by { assert v.members[0].0 == "output"; }
  }

  /** Retrying over the outcomes of successive attempts (None: the attempt raised), from
      attempt `n`: the first reply and the number of attempts made, or the sentinel after
      every attempt raised. */
  function FirstReply(outcomes: seq<Option<string>>, n: nat): (r: (string, nat))
    requires n <= |outcomes|
    ensures n <= r.1 <= |outcomes|
    ensures forall k | n <= k < r.1 - 1 :: outcomes[k].None?
    ensures r.1 > n && outcomes[r.1 - 1].Some? ==> r.0 == outcomes[r.1 - 1].value
    ensures r.1 == n || outcomes[r.1 - 1].None? ==> r.1 == |outcomes| && r.0 == Sentinel
    decreases |outcomes| - n
  {
    if n == |outcomes| then (Sentinel, n)
    else if outcomes[n].None? then FirstReply(outcomes, n + 1)
    else (outcomes[n].value, n + 1)
  }

  /** What attempts `0 .. retries - 1` of `req` return. */
  function Outcomes(c: Codec, svc: Service, req: Request, retries: nat): (r: seq<Option<string>>)
    ensures |r| == retries
  {
    seq(retries, k requires 0 <= k < retries => Outcome(c, svc(req, k)))
  }

  /** `call_ollama`: the reply and the number of attempts made. */
  function Ask(c: Codec, svc: Service, req: Request, retries: nat): (string, nat) {
    FirstReply(Outcomes(c, svc, req, retries), 0)
  }

  /** `call_ollama` makes at most `retries` attempts and stops at the first that does not
      raise, returning what it gave, even when that is the sentinel; only when every
      attempt raised does it return the sentinel after all of them. */
  lemma AskAttempts(c: Codec, svc: Service, req: Request, retries: nat)
    ensures Ask(c, svc, req, retries).1 <= retries
    ensures forall k | 0 <= k < Ask(c, svc, req, retries).1 - 1 :: Outcome(c, svc(req, k)).None?
    ensures var (r, n) := Ask(c, svc, req, retries);
            n > 0 && Outcome(c, svc(req, n - 1)).Some? ==> r == Outcome(c, svc(req, n - 1)).value
    ensures var (r, n) := Ask(c, svc, req, retries);
            n == 0 || Outcome(c, svc(req, n - 1)).None? ==> n == retries && r == Sentinel
  {
    var os := Outcomes(c, svc, req, retries);
    assert forall k | 0 <= k < retries :: os[k] == Outcome(c, svc(req, k));
  }

  /** The reply `call_ollama(prompt, max_tokens)` returns with its default two attempts. */
  function Reply(c: Codec, svc: Service, cfg: Config, prompt: Prompt, maxTokens: nat): string {
    Ask(c, svc, RequestFor(cfg, prompt, maxTokens), DefaultRetries).0
  }

  /** The replies to `prompts`, one call each, in order. */
  function Replies(c: Codec, svc: Service, cfg: Config, prompts: seq<Prompt>, maxTokens: nat): (r: seq<string>)
    ensures |r| == |prompts|
  {
    seq(|prompts|, i requires 0 <= i < |prompts| => Reply(c, svc, cfg, prompts[i], maxTokens))
  }

  lemma RepliesStep(c: Codec, svc: Service, cfg: Config, prompts: seq<Prompt>, p: Prompt, maxTokens: nat, reply: string)
    requires reply == Ask(c, svc, RequestFor(cfg, p, maxTokens), DefaultRetries).0
    ensures Replies(c, svc, cfg, prompts + [p], maxTokens) == Replies(c, svc, cfg, prompts, maxTokens) + [reply]
  {
  }

  /** A failed call is marked by the sentinel, or by nothing at all. */
  predicate Failed(reply: string) {
    reply == [] || Contains(reply, Sentinel)
  }

  /** `call_ollama(prompt, max_tokens, retries)`. */
  method CallOllama(c: Codec, svc: Service, cfg: Config, prompt: Prompt, maxTokens: nat, retries: nat)
    returns (r: string, tries: nat)
    ensures (r, tries) == Ask(c, svc, RequestFor(cfg, prompt, maxTokens), retries)
  {
    var req := RequestFor(cfg, prompt, maxTokens);
    var attempt := 0;
    while attempt < retries
      invariant attempt <= retries
      invariant FirstReply(Outcomes(c, svc, req, retries), attempt) == Ask(c, svc, req, retries)
    {
      var outcome := ReadAttempt(c, svc(req, attempt));
      if outcome.Some? {
        r, tries := outcome.value, attempt + 1;
        return;
      }
      attempt := attempt + 1;
    }
    r, tries := Sentinel, retries;
  }

  /** One attempt of `call_ollama`: the streamed lines accumulated until one raises, the
      result stripped, or the sentinel when nothing came. */
  method ReadAttempt(c: Codec, a: Attempt) returns (r: Option<string>)
    ensures r == Outcome(c, a)
  {
    if a.Raised? {
      return None;
    }
    var lines := a.lines;
    var acc := "";
    var ok := true;
    var j := 0;
    while j < |lines| && ok
      invariant 0 <= j <= |lines|
      invariant ok ==> Accumulate(c, lines[..j]) == Ok(acc)
      invariant !ok ==> Accumulate(c, lines[..j]).Err?
    {
      AccumulateStep(c, lines, j);
      var rec := Record(c, lines[j]);
      if rec.Err? {
        ok := false;
      } else {
        acc := acc + rec.value;
      }
      j := j + 1;
    }
    if ok {
      assert lines[..j] == lines;
      r := Some(if acc != [] then Strip(acc) else Sentinel);
    } else {
      RaisedPrefix(c, lines, j);
      r := None;
    }
  }
}
