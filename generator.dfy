/** The image generator: the request headers built by `Generator.__init__`,
    the retry loop of `Generator.generate` and the file path it saves to.
    The HTTP exchange is a script of replies, one per possible attempt; the
    clock reading, the sleeps and the decoding and saving of the image are
    inputs and outputs of the model. */
module Generator {
  import opened Wrappers

  const ApiUrl: string := "https://api-inference.huggingface.co/models/black-forest-labs/FLUX.1-dev"
  const DefaultOutputDir: string := "generated_images"
  const DefaultPrefix: string := "img"
  /** At most this many POST requests per call. */
  const MaxRetries: nat := 5
  /** Seconds slept after a 503 whose body has no "estimated_time". */
  const DefaultWait: real := 20.0
  /** Only this many leading characters of the prompt go into the file name. */
  const PromptPrefixLength: nat := 20

  /** The body of a 503 reply: a JSON object (with or without
      "estimated_time") or something `response.json().get` raises on. */
  datatype Body = JsonObject(estimatedTime: Option<real>) | NotJsonObject

  /** What one `requests.post` gives: a reply, with `imageOk` telling whether
      opening and saving its content as an image succeed; or an exception. */
  datatype Reply = Reply(status: int, body: Body, imageOk: bool) | NoReply

  /** The exceptions that escape `generate`: `requests.post` raising, the
      body of a 503 not being a JSON object, and `time.sleep` refusing a
      negative "estimated_time". */
  datatype GenerateError = RequestFailed | BodyNotJson | NegativeSleep

  /** `generate` returns a path or None, or lets an exception escape. */
  datatype GenerateResult = Returned(path: Option<string>) | Raised(error: GenerateError)

  /** The header map of `__init__`. */
  function AuthHeaders(apiToken: string): (h: map<string, string>)
    ensures h.Keys == {"Authorization"}
    ensures |h["Authorization"]| == 7 + |apiToken|
    ensures h["Authorization"][..7] == "Bearer " && h["Authorization"][7..] == apiToken
  {
    map["Authorization" := "Bearer " + apiToken]
  }

  // ---------------------------------------------------------- the file name

  predicate IsAlnum(c: char) {
    ('a' <= c <= 'z') || ('A' <= c <= 'Z') || ('0' <= c <= '9')
  }

  /** `"".join([c if c.isalnum() else "_" for c in prompt[:20]])`. */
  function SafePrompt(prompt: string): (r: string)
    ensures |r| == if |prompt| < PromptPrefixLength then |prompt| else PromptPrefixLength
    ensures forall i :: 0 <= i < |r| ==> IsAlnum(r[i]) || r[i] == '_'
    ensures forall i :: 0 <= i < |r| && IsAlnum(prompt[i]) ==> r[i] == prompt[i]
    ensures forall i :: 0 <= i < |r| && !IsAlnum(prompt[i]) ==> r[i] == '_'
  {
    var n := if |prompt| < PromptPrefixLength then |prompt| else PromptPrefixLength;
    seq(n, i requires 0 <= i < n => if IsAlnum(prompt[i]) then prompt[i] else '_')
  }

  /** Sanitising a sanitised prompt changes nothing. */
  lemma SafePromptIdempotent(prompt: string)
    ensures SafePrompt(SafePrompt(prompt)) == SafePrompt(prompt)
  {
    var s := SafePrompt(prompt);
    assert forall i :: 0 <= i < |s| ==> SafePrompt(s)[i] == s[i];
  }

  function DigitChar(d: nat): char
    requires d < 10
  {
    "0123456789"[d]
  }

  /** `str(n)` for a non-negative integer: no leading zero except for 0 itself. */
  function Decimal(n: nat): (r: string)
    ensures |r| > 0
    ensures forall i :: 0 <= i < |r| ==> '0' <= r[i] <= '9'
    ensures r[0] == '0' ==> n == 0 && r == "0"
    decreases n
  {
    if n < 10 then [DigitChar(n)] else Decimal(n / 10) + [DigitChar(n % 10)]
  }

  function DigitsValue(s: string): int
    decreases |s|
  {
    if s == [] then 0 else 10 * DigitsValue(s[..|s| - 1]) + (s[|s| - 1] as int - '0' as int)
  }

  /** The decimal text of `n` reads back as `n`. */
  lemma {:induction false} DecimalRoundTrip(n: nat)
    ensures DigitsValue(Decimal(n)) == n
    decreases n
  {
    if n >= 10 {
      DecimalRoundTrip(n / 10);
      var s := Decimal(n);
      assert s[..|s| - 1] == Decimal(n / 10);
    }
  }

  /** `os.path.join(a, b)` for two POSIX path components: an absolute `b`
      replaces `a`; otherwise `b` follows `a`, after a '/' unless `a` is
      empty or already ends with one. */
  function JoinPath(a: string, b: string): (r: string)
    ensures |b| > 0 && b[0] == '/' ==> r == b
    ensures !(|b| > 0 && b[0] == '/') ==>
      && |a| + |b| <= |r| <= |a| + |b| + 1
      && r[..|a|] == a
      && r[|r| - |b|..] == b
  {
    if |b| > 0 && b[0] == '/' then b
    else if a == "" || a[|a| - 1] == '/' then a + b
    else a + "/" + b
  }

  /** `f"{prefix}_{timestamp}_{safe_prompt}.png"`. */
  function FileName(prefix: string, timestamp: nat, prompt: string): (r: string)
    ensures |r| == |prefix| + |Decimal(timestamp)| + |SafePrompt(prompt)| + 6
    ensures r[..|prefix|] == prefix && r[|prefix|] == '_'
    ensures r[|r| - 4..] == ".png"
  {
    prefix + "_" + Decimal(timestamp) + "_" + SafePrompt(prompt) + ".png"
  }

  /** The image path: `<output_dir>/<prefix>_<timestamp>_<safe prompt>.png`. */
  function FilePath(outputDir: string, prefix: string, timestamp: nat, prompt: string): string {
    JoinPath(outputDir, FileName(prefix, timestamp, prompt))
  }

  /** Joining a relative name onto a non-empty directory keeps the
      directory as a prefix and the name as a suffix. */
  lemma JoinRelative(dir: string, name: string)
    requires dir != "" && (name == "" || name[0] != '/')
    ensures var sep := if dir[|dir| - 1] == '/' then "" else "/";
      && JoinPath(dir, name) == dir + sep + name
      && JoinPath(dir, name)[..|dir|] == dir
      && JoinPath(dir, name)[|dir| + |sep|..] == name
  {
  }

  /** Unless the prefix is an absolute path, the file lands in the output
      directory, one separator after it (none extra when `outputDir` already
      ends with one), and its name ends with the sanitised prompt and ".png". */
  lemma FilePathShape(outputDir: string, prefix: string, timestamp: nat, prompt: string)
    requires outputDir != "" && (prefix == "" || prefix[0] != '/')
    ensures var p := FilePath(outputDir, prefix, timestamp, prompt);
      var name := FileName(prefix, timestamp, prompt);
      var sep := if outputDir[|outputDir| - 1] == '/' then "" else "/";
      && p == outputDir + sep + name
      && p[..|outputDir|] == outputDir
      && p[|p| - |SafePrompt(prompt)| - 4..] == SafePrompt(prompt) + ".png"
  {
    var name := FileName(prefix, timestamp, prompt);
    var head := prefix + "_" + Decimal(timestamp) + "_";
    var tail := SafePrompt(prompt) + ".png";
    assert name == head + tail;
    assert name[0] == (if prefix == "" then '_' else prefix[0]);
    JoinRelative(outputDir, name);
    var p := JoinPath(outputDir, name);
    var sep := if outputDir[|outputDir| - 1] == '/' then "" else "/";
    assert p == (outputDir + sep + head) + tail;
    assert |tail| == |SafePrompt(prompt)| + 4;
  }

  /** With the default output directory and prefix, an image lands in
      "generated_images", one '/' before a name that starts with "img_". */
  lemma DefaultFilePath(timestamp: nat, prompt: string)
    ensures var name := FileName(DefaultPrefix, timestamp, prompt);
      && FilePath(DefaultOutputDir, DefaultPrefix, timestamp, prompt) == "generated_images" + "/" + name
      && name[..4] == "img_"
  {
    var name := FileName(DefaultPrefix, timestamp, prompt);
    assert name[..3] == "img" && name[3] == '_';
    assert name[..4] == name[..3] + [name[3]];
    JoinRelative(DefaultOutputDir, name);
  }

  // ------------------------------------------------------- the retry loop

  /** A reply on which the loop sleeps and tries again: a 503 whose body is
      a JSON object with no "estimated_time" or a non-negative one. */
  predicate Retries(r: Reply) {
    r.Reply? && r.status == 503 && r.body.JsonObject? && r.body.estimatedTime.GetOr(DefaultWait) >= 0.0
  }

  function Wait(r: Reply): (w: real)
    requires Retries(r)
    ensures w >= 0.0
  {
    r.body.estimatedTime.GetOr(DefaultWait)
  }

  /** The attempt on which the loop stops: the first of the first `n`
      replies that is not a well-formed 503, or `n` when there is none. */
  function StopIndex(replies: seq<Reply>, n: nat, from: nat): (k: nat)
    requires from <= n <= |replies|
    ensures from <= k <= n
    ensures forall j :: from <= j < k ==> Retries(replies[j])
    ensures k < n ==> !Retries(replies[k])
    decreases n - from
  {
    if from == n then n
    else if !Retries(replies[from]) then from
    else StopIndex(replies, n, from + 1)
  }

  /** The sleeps before attempt `k`. */
  function Waits(replies: seq<Reply>, k: nat): (w: seq<real>)
    requires k <= |replies| && forall j :: 0 <= j < k ==> Retries(replies[j])
    ensures |w| == k
    ensures forall j :: 0 <= j < k ==> w[j] == Wait(replies[j])
  {
    seq(k, j requires 0 <= j < k && Retries(replies[j]) => Wait(replies[j]))
  }

  class Generator {
    var apiUrl: string
    var headers: map<string, string>
    var outputDir: string

    /** `Generator.__init__`; creating the directory is not modelled. */
    constructor (apiToken: string, outputDir: string := DefaultOutputDir)
      ensures apiUrl == ApiUrl && headers == AuthHeaders(apiToken) && this.outputDir == outputDir
    {
      apiUrl := ApiUrl;
      headers := AuthHeaders(apiToken);
      this.outputDir := outputDir;
    }

    /** `Generator.generate`. `replies` holds the reply to each attempt that
        may be made and `now` the clock reading in whole seconds. The loop
        posts until a reply other than a well-formed 503 or until five 503s:
        a 200 gives the saved path (None when the image cannot be opened or
        saved), any other status gives None at once, and a 503 sleeps for its
        estimated time, 20 s by default; `time.sleep` raises on a negative
        time, which ends the call. */
    method Generate(prompt: string, replies: seq<Reply>, now: nat, prefix: string := DefaultPrefix)
      returns (result: GenerateResult, posts: nat, sleeps: seq<real>)
      requires |replies| >= MaxRetries
      ensures var k := StopIndex(replies, MaxRetries, 0);
        && posts == (if k < MaxRetries then k + 1 else MaxRetries)
        && sleeps == Waits(replies, k)
        && (k == MaxRetries ==> result == Returned(None))
        && (k < MaxRetries ==> match replies[k]
              case NoReply => result == Raised(RequestFailed)
              case Reply(status, body, imageOk) =>
                if status == 200 then
                  result == Returned(if imageOk then Some(FilePath(outputDir, prefix, now, prompt)) else None)
                else if status == 503 then
                  result == Raised(if body.NotJsonObject? then BodyNotJson else NegativeSleep)
                else result == Returned(None))
    {
      ghost var k := StopIndex(replies, MaxRetries, 0);
      sleeps := [];
      posts := 0;
      var i := 0;
      while i < MaxRetries
        invariant 0 <= i <= MaxRetries && i <= k
        invariant posts == i
        invariant StopIndex(replies, MaxRetries, i) == k
        invariant sleeps == Waits(replies, i)
      {
        var response := replies[i];
        posts := posts + 1;
        if response.NoReply? {
          return Raised(RequestFailed), posts, sleeps;
        }
        if response.status == 200 {
          if response.imageOk {
            return Returned(Some(FilePath(outputDir, prefix, now, prompt))), posts, sleeps;
          }
          return Returned(None), posts, sleeps;
        } else if response.status == 503 {
          if response.body.NotJsonObject? {
            return Raised(BodyNotJson), posts, sleeps;
          }
          var wait := response.body.estimatedTime.GetOr(DefaultWait);
          if wait < 0.0 {
            return Raised(NegativeSleep), posts, sleeps;
          }
          sleeps := sleeps + [wait];
        } else {
          return Returned(None), posts, sleeps;
        }
        i := i + 1;
      }
      result := Returned(None);
    }
  }
}
