/** The enrichment script (scripts/enrich.ts): its `.env.local` reader, the
    validation of a provider's parsed answer, the coverage note written with it, the
    choice of which articles to (re-)enrich and the run's counters. The
    providers, the network, the YAML and JSON parsers and the clock are outside
    the model; their results are inputs. */
module Enrich {
  import opened Common

  // ---------------------------------------------------------------------------
  // The `.env.local` reader (scripts/enrich.ts:13-22)

  /** `const [key, ...valueParts] = line.split('=')`: a line sets a variable when
      the text before its first `=` is non-empty; the name is that text trimmed,
      the value the rest of the line (further `=` included) trimmed. */
  function EnvLine(line: string): Option<(string, string)> {
    var parts := Split(line, '=');
    if parts[0] != "" && |parts| > 1 then Some((Trim(parts[0]), Trim(Join(parts[1..], "="))))
    else None
  }

  lemma {:induction false} SplitNoSeparator(s: string, c: char)
    requires c !in s
    ensures Split(s, c) == [s]
  {
    if s != [] {
      SplitNoSeparator(s[1..], c);
      assert [s[0]] + s[1..] == s;
    }
  }

  /** Splitting at the first separator: the text before it is the first piece. */
  lemma {:induction false} SplitFirst(k: string, c: char, v: string)
    requires c !in k
    ensures Split(k + [c] + v, c) == [k] + Split(v, c)
  {
    var s := k + [c] + v;
    if k == [] {
      assert s[1..] == v;
    } else {
      SplitFirst(k[1..], c, v);
      assert s[1..] == k[1..] + [c] + v;
      assert [k[0]] + k[1..] == k;
    }
  }

  /** A line without `=` sets nothing. */
  lemma EnvLineWithoutSeparator(line: string)
    requires '=' !in line
    ensures EnvLine(line) == None
  {
    SplitNoSeparator(line, '=');
  }

  /** A line `k=v`, where k holds no `=`, sets nothing when k is empty and
      otherwise sets k trimmed to v trimmed, whatever `=` v holds. */
  lemma EnvLineSplitsAtFirst(k: string, v: string)
    requires '=' !in k
    ensures EnvLine(k + "=" + v) == if k == "" then None else Some((Trim(k), Trim(v)))
  {
    var rest := Split(v, '=');
    SplitFirst(k, '=', v);
    var parts := Split(k + "=" + v, '=');
    assert parts == [k] + rest;
    assert parts[0] == k && parts[1..] == rest && |parts| > 1;
    JoinSplit(v, '=');
    assert Join(parts[1..], "=") == v;
  }

  /** The variables after applying the settings in order onto env: a later
      setting overrides an earlier one. */
  function Apply(env: map<string, string>, settings: seq<Option<(string, string)>>): map<string, string> {
    if settings == [] then env
    else
      var e := Apply(env, settings[..|settings| - 1]);
      match settings[|settings| - 1]
      case None => e
      case Some(kv) => e[kv.0 := kv.1]
  }

  /** The settings of the lines of a file. */
  function Settings(lines: seq<string>): (r: seq<Option<(string, string)>>)
    ensures |r| == |lines| && forall i :: 0 <= i < |lines| ==> r[i] == EnvLine(lines[i])
  {
    seq(|lines|, i requires 0 <= i < |lines| => EnvLine(lines[i]))
  }

  /** A setting for the variable named key. */
  predicate Sets(setting: Option<(string, string)>, key: string) {
    setting.Some? && setting.value.0 == key
  }

  /** A variable no setting names keeps its value, or stays unset. */
  lemma {:induction false} EnvUntouched(env: map<string, string>, settings: seq<Option<(string, string)>>, key: string)
    requires forall k :: 0 <= k < |settings| ==> !Sets(settings[k], key)
    ensures key in Apply(env, settings) <==> key in env
    ensures key in env ==> Apply(env, settings)[key] == env[key]
  {
    if settings != [] {
      EnvUntouched(env, settings[..|settings| - 1], key);
    }
  }

  /** The value of a variable is the one its last setting gives. */
  lemma {:induction false} EnvLastWins(env: map<string, string>, settings: seq<Option<(string, string)>>, j: nat, key: string, value: string)
    requires j < |settings| && settings[j] == Some((key, value))
    requires forall k :: j < k < |settings| ==> !Sets(settings[k], key)
    ensures key in Apply(env, settings) && Apply(env, settings)[key] == value
  {
    var n := |settings| - 1;
    if j < n {
      EnvLastWins(env, settings[..n], j, key, value);
    }
  }

  /** `process.env`, seen as the map of its variables. */
  class ProcessEnv {
    var vars: map<string, string>

    constructor(vars0: map<string, string>)
      ensures vars == vars0
    {
      vars := vars0;
    }

    /** `envContent.split('\n').forEach(...)`: each setting line writes one
        variable. */
    method LoadDotEnv(content: string)
      modifies this
      ensures vars == Apply(old(vars), Settings(Split(content, '\n')))
    {
      var lines := Split(content, '\n');
      ghost var vars0 := vars;
      var i := 0;
      while i < |lines|
        invariant 0 <= i <= |lines|
        invariant vars == Apply(vars0, Settings(lines)[..i])
      {
        PrefixSnoc(Settings(lines), i);
        var parsed := EnvLine(lines[i]);
        if parsed.Some? {
          vars := vars[parsed.value.0 := parsed.value.1];
        }
        i := i + 1;
      }
      assert Settings(lines)[..i] == Settings(lines);
    }
  }

  // ---------------------------------------------------------------------------
  // `validateEnrichment` (scripts/enrich.ts:181-203)

  /** The topic an answer outside the configured list falls back to. */
  const DefaultTopic := "mental-models"

  /** The fields of a provider's parsed answer; a field the answer leaves out
      (or sets to null) is None. */
  datatype Answer = Answer(
    summary: Option<string>,
    highlights: Option<seq<string>>,
    topic: Option<string>,
    secondaryTopic: Option<string>,
    relatedConcepts: Option<seq<string>>,
    scope: Option<string>,
    antiPattern: Option<string>)

  /** `list || []`. */
  function ListOr(o: Option<seq<string>>): seq<string> {
    if o.Some? then o.value else []
  }

  /** The answer after validation, with each rule stated on its field. */
  function Validated(a: Answer, topics: seq<string>): (r: Answer)
    ensures r.summary == a.summary
    ensures r.topic.Some? && (r.topic.value in topics || r.topic.value == DefaultTopic)
    ensures a.topic.Some? && a.topic.value in topics ==> r.topic == a.topic
    ensures !(a.topic.Some? && a.topic.value in topics) ==> r.topic == Some(DefaultTopic)
    ensures Truthy(a.secondaryTopic) && a.secondaryTopic.value !in topics ==> r.secondaryTopic == None
    ensures !(Truthy(a.secondaryTopic) && a.secondaryTopic.value !in topics) ==> r.secondaryTopic == a.secondaryTopic
    ensures r.highlights.Some? && r.highlights.value <= ListOr(a.highlights)
    ensures |r.highlights.value| == if |ListOr(a.highlights)| < 3 then |ListOr(a.highlights)| else 3
    ensures r.relatedConcepts.Some? && r.relatedConcepts.value <= ListOr(a.relatedConcepts)
    ensures |r.relatedConcepts.value| == if |ListOr(a.relatedConcepts)| < 4 then |ListOr(a.relatedConcepts)| else 4
    ensures r.scope.Some? && r.scope.value == (if Truthy(a.scope) then a.scope.value else "")
    ensures r.antiPattern.Some? && r.antiPattern.value == (if Truthy(a.antiPattern) then a.antiPattern.value else "")
  {
    Answer(
      a.summary,
      Some(Take(ListOr(a.highlights), 3)),
      if a.topic.Some? && a.topic.value in topics then a.topic else Some(DefaultTopic),
      if Truthy(a.secondaryTopic) && a.secondaryTopic.value !in topics then None else a.secondaryTopic,
      Some(Take(ListOr(a.relatedConcepts), 4)),
      Some(OrElse(a.scope, "")),
      Some(OrElse(a.antiPattern, "")))
  }

  /** Validating a validated answer changes nothing. */
  lemma ValidatedIdempotent(a: Answer, topics: seq<string>)
    ensures Validated(Validated(a, topics), topics) == Validated(a, topics)
  {
    var r := Validated(a, topics);
    var rr := Validated(r, topics);
    assert rr.highlights == r.highlights;
    assert rr.relatedConcepts == r.relatedConcepts;
  }

  /** The parsed answer object, whose fields `validateEnrichment` overwrites. */
  class Enrichment {
    var summary: Option<string>
    var highlights: Option<seq<string>>
    var topic: Option<string>
    var secondaryTopic: Option<string>
    var relatedConcepts: Option<seq<string>>
    var scope: Option<string>
    var antiPattern: Option<string>

    constructor(a: Answer)
      ensures Fields() == a
    {
      summary, highlights, topic, secondaryTopic := a.summary, a.highlights, a.topic, a.secondaryTopic;
      relatedConcepts, scope, antiPattern := a.relatedConcepts, a.scope, a.antiPattern;
    }

    function Fields(): Answer
      reads this
    {
      Answer(summary, highlights, topic, secondaryTopic, relatedConcepts, scope, antiPattern)
    }

    /** `validateEnrichment(this)`: the fields are replaced in place. */
    method Validate(topics: seq<string>)
      modifies this
      ensures Fields() == Validated(old(Fields()), topics)
    {
      if !(topic.Some? && topic.value in topics) {
        topic := Some(DefaultTopic);
      }
      if Truthy(secondaryTopic) && secondaryTopic.value !in topics {
        secondaryTopic := None;
      }
      highlights := Some(Take(ListOr(highlights), 3));
      relatedConcepts := Some(Take(ListOr(relatedConcepts), 4));
      scope := Some(OrElse(scope, ""));
      antiPattern := Some(OrElse(antiPattern, ""));
    }
  }

  // ---------------------------------------------------------------------------
  // The coverage note (scripts/enrich.ts:205-215, 238-245)

  datatype Coverage = Full | Partial

  /** `truncatedContent.length >= fullLength ? 'full' : 'partial'`, with the
      truncated content `body.substring(0, maxLength)`. */
  function CoverageOf(body: string, maxLength: nat): (c: Coverage)
    ensures c == Full <==> |body| <= maxLength
  {
    var truncated := Take(body, maxLength);
    if |truncated| >= |body| then Full else Partial
  }

  /** The `content_analyzed` field after the note: removed for full coverage,
      and otherwise the percentage text, which is computed in floating point and
      is an input here. */
  function Analyzed(body: string, maxLength: nat, percent: string): (r: Option<string>)
    ensures r == None <==> |body| <= maxLength
    ensures r.Some? ==> r.value == percent
  {
    if CoverageOf(body, maxLength) == Partial then Some(percent) else None
  }

  /** `parsed.data.enriched_at && !force`: the article is skipped unread. */
  predicate SkipsEnriched(enrichedAt: Option<string>, force: bool) {
    Truthy(enrichedAt) && !force
  }

  // ---------------------------------------------------------------------------
  // Which articles to enrich (scripts/enrich.ts:297-342)

  /** Bodies longer than this were cut by an earlier version of the script. */
  const OldContentLength: nat := 6000

  /** A content file as the selection sees it: its path, its name without the
      `.md` extension, its `enriched_at` field and the length of its body. */
  datatype ArticleFile = ArticleFile(path: string, name: string, enrichedAt: Option<string>, bodyLength: nat)

  datatype Info = Info(path: string, name: string, enriched: bool, enrichedToday: bool, wasTruncated: bool)

  /** `const enrichedAt = parsed.data.enriched_at || null`, then the flags. */
  function InfoOf(f: ArticleFile, today: string): (i: Info)
    ensures i.path == f.path && i.name == f.name
    ensures i.enriched <==> Truthy(f.enrichedAt)
    ensures i.enrichedToday <==> Truthy(f.enrichedAt) && f.enrichedAt.value == today
    ensures i.wasTruncated <==> f.bodyLength > OldContentLength
  {
    var enrichedAt := if Truthy(f.enrichedAt) then f.enrichedAt else None;
    Info(f.path, f.name, enrichedAt.Some?, enrichedAt == Some(today), f.bodyLength > OldContentLength)
  }

  datatype Mode = Specific | ForceAll | ForceTruncated | Normal

  /** `--files` wins over `--force`, which wins over `--force-truncated`. */
  function ModeOf(specific: seq<string>, force: bool, forceTruncated: bool): Mode {
    if |specific| > 0 then Specific
    else if force then ForceAll
    else if forceTruncated then ForceTruncated
    else Normal
  }

  /** The filter of each mode. */
  predicate Wanted(mode: Mode, a: Info, specific: seq<string>) {
    match mode
    case Specific => a.name in specific && !a.enrichedToday
    case ForceAll => true
    case ForceTruncated => (!a.enriched || a.wasTruncated) && !a.enrichedToday
    case Normal => !a.enriched
  }

  /** The paths of the files the mode keeps, in directory order. */
  function Selected(files: seq<ArticleFile>, today: string, mode: Mode, specific: seq<string>): seq<string> {
    if files == [] then []
    else
      var f := files[|files| - 1];
      Selected(files[..|files| - 1], today, mode, specific)
        + (if Wanted(mode, InfoOf(f, today), specific) then [f.path] else [])
  }

  function Paths(files: seq<ArticleFile>): (r: seq<string>)
    ensures |r| == |files| && forall i :: 0 <= i < |files| ==> r[i] == files[i].path
  {
    seq(|files|, i requires 0 <= i < |files| => files[i].path)
  }

  /** `needsEnrichment`: every file under `--force`, otherwise the files the
      mode's filter keeps. */
  function NeedsEnrichment(files: seq<ArticleFile>, today: string, specific: seq<string>, force: bool, forceTruncated: bool): seq<string> {
    var mode := ModeOf(specific, force, forceTruncated);
    if mode == ForceAll then Paths(files) else Selected(files, today, mode, specific)
  }

  /** A path is selected exactly when one of the files with that path passes
      the filter of the mode. */
  lemma {:induction false} SelectedMembers(files: seq<ArticleFile>, today: string, mode: Mode, specific: seq<string>, p: string)
    ensures p in Selected(files, today, mode, specific) <==>
      exists i :: 0 <= i < |files| && files[i].path == p && Wanted(mode, InfoOf(files[i], today), specific)
  {
    if files != [] {
      var init := files[..|files| - 1];
      SelectedMembers(init, today, mode, specific, p);
      if exists i :: 0 <= i < |init| && init[i].path == p && Wanted(mode, InfoOf(init[i], today), specific) {
        var i :| 0 <= i < |init| && init[i].path == p && Wanted(mode, InfoOf(init[i], today), specific);
        assert files[i] == init[i];
      }
    }
  }

  /** Under `--force-truncated`, every file the normal mode would pick is picked
      too: one not yet enriched cannot have been enriched today. */
  lemma {:induction false} NormalWithinForceTruncated(files: seq<ArticleFile>, today: string, specific: seq<string>)
    ensures forall p :: p in Selected(files, today, Normal, specific) ==> p in Selected(files, today, ForceTruncated, specific)
  {
    forall p | p in Selected(files, today, Normal, specific)
      ensures p in Selected(files, today, ForceTruncated, specific)
    {
      SelectedMembers(files, today, Normal, specific, p);
      SelectedMembers(files, today, ForceTruncated, specific, p);
    }
  }

  /** No selected article is skipped by `enrichArticle`: the force flag is set
      in every mode but the normal one, which picks only articles not yet
      enriched. */
  lemma NeverSkipped(files: seq<ArticleFile>, today: string, specific: seq<string>, force: bool, forceTruncated: bool, i: nat)
    requires i < |files|
    requires files[i].path in NeedsEnrichment(files, today, specific, force, forceTruncated)
    requires forall j :: 0 <= j < |files| && files[j].path == files[i].path ==> j == i
    ensures !SkipsEnriched(files[i].enrichedAt, force || forceTruncated || |specific| > 0)
  {
    var mode := ModeOf(specific, force, forceTruncated);
    if mode == Normal {
      SelectedMembers(files, today, Normal, specific, files[i].path);
    }
  }

  // ---------------------------------------------------------------------------
  // The run's counters (scripts/enrich.ts:371-402)

  datatype Provider = Gemini | Groq

  /** What `enrichArticle` reported for one article. */
  datatype Outcome = Enriched(provider: Provider) | Failed | Skipped

  function CountEnriched(outs: seq<Outcome>, p: Provider): (n: nat)
    ensures n <= |outs|
  {
    if outs == [] then 0
    else CountEnriched(outs[..|outs| - 1], p) + (if outs[|outs| - 1] == Enriched(p) then 1 else 0)
  }

  function CountFailed(outs: seq<Outcome>): (n: nat)
    ensures n <= |outs|
  {
    if outs == [] then 0
    else CountFailed(outs[..|outs| - 1]) + (if outs[|outs| - 1] == Failed then 1 else 0)
  }

  /** The loop's `enriched`, `failed` and `providerStats` counters. */
  method CountOutcomes(outs: seq<Outcome>) returns (enriched: nat, failed: nat, gemini: nat, groq: nat)
    ensures gemini == CountEnriched(outs, Gemini) && groq == CountEnriched(outs, Groq)
    ensures enriched == gemini + groq
    ensures failed == CountFailed(outs)
    ensures enriched + failed <= |outs|
  {
    enriched, failed, gemini, groq := 0, 0, 0, 0;
    var i := 0;
    while i < |outs|
      invariant 0 <= i <= |outs|
      invariant gemini == CountEnriched(outs[..i], Gemini) && groq == CountEnriched(outs[..i], Groq)
      invariant enriched == gemini + groq && failed == CountFailed(outs[..i])
      invariant enriched + failed <= i
    {
      PrefixSnoc(outs, i);
      if outs[i].Enriched? {
        enriched := enriched + 1;
        if outs[i].provider == Gemini { gemini := gemini + 1; } else { groq := groq + 1; }
      } else if outs[i] == Failed {
        failed := failed + 1;
      }
      i := i + 1;
    }
    assert outs[..i] == outs;
  }
}
