/**
 The runtime inspection adapter of lib/ollama_manager.py: how the console
 reads the answers of the `ollama` command line and of the daemon's HTTP
 API. The process and the HTTP exchange themselves are inputs; what is
 modelled is the decision each method takes on them. Commands that change
 the runtime (pull, stop) and the readiness probe are recorded as `Action`s.
 */
module Runtime {
  import opened Wrappers
  import opened Text

  // ------------------------------------------------------------ inputs

  /** How a `subprocess.run` call ended: an exit status with the captured
      streams, the timeout, or another exception (message attached). */
  datatype ProcessOutcome =
    | Exited(code: int, stdout: string, stderr: string)
    | TimedOut
    | Raised(message: string)

  /** An HTTP exchange: a status with a decoded body, or a transport error
      (connection refused, timeout). */
  datatype HttpReply<+B> = Reply(status: int, body: B) | Unreachable

  /** Something the console asks the runtime to do: stop a resident model,
      pull a model (with or without the progress display), or send the
      readiness probe, which also loads the model. */
  datatype Action =
    | Stop(name: string)
    | Pull(name: string, progress: bool)
    | Probe(name: string)

  /** A boolean answer together with the commands issued to obtain it. */
  datatype Run = Run(ok: bool, actions: seq<Action>)

  // ----------------------------------------------------------- command

  datatype CommandResult = CommandResult(success: bool, output: string)

  const TimeoutMessage: string := "Timeout ejecutando comando"

  /** `_run_command`: success means exit status 0; the output is the
      trimmed standard output on success and the trimmed standard error
      otherwise; a timeout or another exception is a failure with a message. */
  function RunCommand(p: ProcessOutcome): (r: CommandResult)
    ensures r.success <==> p.Exited? && p.code == 0
    ensures r.success ==> r.output == Strip(p.stdout)
    ensures p.Exited? && p.code != 0 ==> r.output == Strip(p.stderr)
    ensures p.Exited? ==> r.output == [] || (!IsSpace(r.output[0]) && !IsSpace(r.output[|r.output| - 1]))
    ensures p.TimedOut? ==> r.output == TimeoutMessage
    ensures p.Raised? ==> StartsWith(r.output, "Error: ") && r.output == "Error: " + p.message
  {
    match p
    case Exited(code, out, err) =>
      if code == 0 then CommandResult(true, Strip(out)) else CommandResult(false, Strip(err))
    case TimedOut => CommandResult(false, TimeoutMessage)
    case Raised(msg) =>
      var m := "Error: " + msg;
      assert m[..7] == "Error: ";
      CommandResult(false, m)
  }

  /** `check_ollama_installed`: `ollama --version` exits with 0 and its
      output mentions "ollama version" in any letter case. */
  function CheckOllamaInstalled(p: ProcessOutcome): (r: bool)
    ensures r ==> p.Exited? && p.code == 0
    ensures r <==> p.Exited? && p.code == 0 && Contains(Lower(Strip(p.stdout)), "ollama version")
  {
    var res := RunCommand(p);
    res.success && Contains(Lower(res.output), "ollama version")
  }

  /** A version banner as the CLI prints it is recognised, whatever the case
      of its letters. */
  lemma VersionBannerRecognised(banner: string, rest: string)
    requires Lower(banner) == "ollama version"
    requires rest == [] || !IsSpace(rest[|rest| - 1])
    ensures CheckOllamaInstalled(Exited(0, banner + rest, ""))
  {
    var s := banner + rest;
    assert !IsSpace(s[0]) by { assert s[0] == banner[0]; }
    assert !IsSpace(s[|s| - 1]) by {
      if rest == [] { assert s[|s| - 1] == banner[|banner| - 1]; }
    }
    StripOfTrimmed(s);
    assert Lower(s)[..|banner|] == Lower(banner);
    assert OccursAt(Lower(s), "ollama version", 0);
  }

  /** `check_ollama_running`: the daemon answers `GET /api/tags` with 200. */
  function CheckOllamaRunning<B>(tags: HttpReply<B>): (r: bool)
    ensures r <==> tags.Reply? && tags.status == 200
  {
    tags.Reply? && tags.status == 200
  }

  // ----------------------------------------------------------- listing

  /** One installed model as `list_installed_models` reports it. */
  datatype ModelStatus = ModelStatus(
    name: string,
    size: string,
    sizeVram: string,
    digest: string,
    loaded: bool)

  /** The entry made from the whitespace fields of one listing line:
      field 0 is the name, field 2 the size, field 3 the VRAM size and the
      last field the digest. */
  function RowOf(fields: seq<string>): ModelStatus
    requires |fields| >= 4
  {
    ModelStatus(fields[0], fields[2], fields[3], fields[|fields| - 1], false)
  }

  /** Some line of `lines` has at least four fields and yields `m`. */
  ghost predicate FromLine(lines: seq<string>, m: ModelStatus) {
    exists i :: 0 <= i < |lines| && |Fields(lines[i])| >= 4 && m == RowOf(Fields(lines[i]))
  }

  /** The per-line loop of `list_installed_models`: blank lines and lines
      with fewer than four fields are skipped; every other line gives one
      entry, in order. */
  function ParseRows(lines: seq<string>): (r: seq<ModelStatus>)
    ensures |r| <= |lines|
    ensures (forall i :: 0 <= i < |lines| ==> |Fields(lines[i])| < 4) ==> r == []
  {
    if |lines| == 0 then []
    else
      var rest := ParseRows(lines[1..]);
      var line := lines[0];
      if Kept(line) then [RowOf(Fields(line))] + rest
      else rest
  }

  /** A line ParseRows keeps: not blank and with at least four fields. */
  predicate Kept(line: string) {
    Strip(line) != "" && |Fields(line)| >= 4
  }

  /** One step of the per-line loop: a kept first line contributes its entry
      in front of the entries of the remaining lines. */
  lemma ParseRowsUnfold(lines: seq<string>)
    requires |lines| > 0
    ensures ParseRows(lines) ==
              (if Kept(lines[0]) then [RowOf(Fields(lines[0]))] else []) + ParseRows(lines[1..])
  {
    if !Kept(lines[0]) {
      assert [] + ParseRows(lines[1..]) == ParseRows(lines[1..]);
    }
  }

  /** Indexing a concatenation reads from the part the index falls in. */
  lemma IndexAppend<T>(a: seq<T>, b: seq<T>, k: int)
    requires 0 <= k < |a| + |b|
    ensures (a + b)[k] == if k < |a| then a[k] else b[k - |a|]
  {
  }

  /** Every parsed entry comes from some line with at least four fields,
      so it is unloaded and its reported fields are words. */
  lemma {:induction false} ParsedRowsHaveSources(lines: seq<string>, k: int)
    requires 0 <= k < |ParseRows(lines)|
    ensures FromLine(lines, ParseRows(lines)[k])
    ensures var m := ParseRows(lines)[k];
            !m.loaded && IsWord(m.name) && IsWord(m.size) && IsWord(m.sizeVram) && IsWord(m.digest)
  {
    var rest := ParseRows(lines[1..]);
    var front: seq<ModelStatus> := if Kept(lines[0]) then [RowOf(Fields(lines[0]))] else [];
    ParseRowsUnfold(lines);
    IndexAppend(front, rest, k);
    if k < |front| {
      assert 0 <= 0 < |lines| && |Fields(lines[0])| >= 4;
    } else {
      var j := k - |front|;
      ParsedRowsHaveSources(lines[1..], j);
      var i :| 0 <= i < |lines| - 1 && |Fields(lines[1..][i])| >= 4
               && rest[j] == RowOf(Fields(lines[1..][i]));
      assert lines[1..][i] == lines[i + 1];
      assert 0 <= i + 1 < |lines| && |Fields(lines[i + 1])| >= 4;
    }
  }

  /** `list_installed_models`: a failed `ollama list` gives no models;
      otherwise the header line is skipped and the other lines are parsed. */
  function ListInstalledModels(p: ProcessOutcome): (r: seq<ModelStatus>)
    ensures !(p.Exited? && p.code == 0) ==> r == []
    ensures p.Exited? && p.code == 0 ==>
              r == ParseRows(Split(Strip(Strip(p.stdout)), '\n')[1..])
  {
    var res := RunCommand(p);
    if !res.success then []
    else ParseRows(Split(Strip(res.output), '\n')[1..])
  }

  /** The names of a listing, in order. */
  function Names(ms: seq<ModelStatus>): (r: seq<string>)
    ensures |r| == |ms|
    ensures forall k :: 0 <= k < |ms| ==> r[k] == ms[k].name
  {
    seq(|ms|, k requires 0 <= k < |ms| => ms[k].name)
  }

  /** A row of the table the CLI prints, one word per column; the last
      column is what the parser takes as the digest. */
  datatype TableRow = TableRow(name: string, id: string, size: string, sizeVram: string, digest: string)

  predicate WordRow(t: TableRow) {
    IsWord(t.name) && IsWord(t.id) && IsWord(t.size) && IsWord(t.sizeVram) && IsWord(t.digest)
  }

  function RowWords(t: TableRow): seq<string> {
    [t.name, t.id, t.size, t.sizeVram, t.digest]
  }

  function RowLine(t: TableRow): string {
    Join(RowWords(t), ' ')
  }

  function RowLines(rows: seq<TableRow>): (r: seq<string>)
    ensures |r| == |rows|
    ensures forall k :: 0 <= k < |rows| ==> r[k] == RowLine(rows[k])
  {
    if |rows| == 0 then [] else [RowLine(rows[0])] + RowLines(rows[1..])
  }

  /** The listing `ollama list` would print for a header and rows. */
  function RenderTable(header: string, rows: seq<TableRow>): string {
    Join([header] + RowLines(rows), '\n')
  }

  function StatusOf(t: TableRow): ModelStatus {
    ModelStatus(t.name, t.size, t.sizeVram, t.digest, false)
  }

  function StatusesOf(rows: seq<TableRow>): (r: seq<ModelStatus>)
    ensures |r| == |rows|
    ensures forall k :: 0 <= k < |rows| ==> r[k] == StatusOf(rows[k])
  {
    if |rows| == 0 then [] else [StatusOf(rows[0])] + StatusesOf(rows[1..])
  }

  /** Lines a listing can be joined from and split back into. */
  predicate ShapedLines(lines: seq<string>) {
    forall k :: 0 <= k < |lines| ==> Trimmed(lines[k]) && '\n' !in lines[k]
  }

  predicate WordRows(rows: seq<TableRow>) {
    forall k :: 0 <= k < |rows| ==> WordRow(rows[k])
  }

  predicate GoodHeader(header: string) {
    Trimmed(header) && '\n' !in header
  }

  /** Parsing a listing printed with one word per column gives back every
      row, in order: the partner of `ListInstalledModels`. */
  lemma ListingRoundTrip(header: string, rows: seq<TableRow>)
    requires GoodHeader(header)
    requires WordRows(rows)
    ensures ListInstalledModels(Exited(0, RenderTable(header, rows), "")) == StatusesOf(rows)
  {
    var lines := [header] + RowLines(rows);
    TableLinesShape(header, rows);
    ParseRowLines(rows);
    assert lines[1..] == RowLines(rows);
    BodyLines(lines, StatusesOf(rows));
  }

  /** A listing made of trimmed lines without line breaks is parsed line by
      line after its first (header) line. */
  lemma BodyLines(lines: seq<string>, ms: seq<ModelStatus>)
    requires |lines| >= 1
    requires ShapedLines(lines)
    requires ParseRows(lines[1..]) == ms
    ensures ListInstalledModels(Exited(0, Join(lines, '\n'), "")) == ms
  {
    SplitLines(lines);
  }

  lemma SplitLines(lines: seq<string>)
    requires |lines| >= 1
    requires ShapedLines(lines)
    ensures var out := Join(lines, '\n');
            Split(Strip(Strip(out)), '\n')[1..] == lines[1..]
  {
    var out := Join(lines, '\n');
    JoinTrimmed(lines, '\n');
    StripOfTrimmed(out);
    SplitJoin(lines, '\n');
  }

  /** The header and every rendered row are trimmed and free of line breaks. */
  lemma TableLinesShape(header: string, rows: seq<TableRow>)
    requires GoodHeader(header)
    requires WordRows(rows)
    ensures ShapedLines([header] + RowLines(rows))
  {
    RowLinesShape(rows);
  }

  /** Every rendered row is free of line breaks and trimmed. */
  lemma {:induction false} RowLinesShape(rows: seq<TableRow>)
    requires forall k :: 0 <= k < |rows| ==> WordRow(rows[k])
    ensures forall k :: 0 <= k < |rows| ==> Trimmed(RowLines(rows)[k]) && '\n' !in RowLines(rows)[k]
  {
    if |rows| > 0 {
      RowLineShape(rows[0]);
      RowLinesShape(rows[1..]);
    }
  }

  /** A rendered row is free of line breaks and starts and ends with a word. */
  lemma RowLineShape(t: TableRow)
    requires WordRow(t)
    ensures Trimmed(RowLine(t)) && '\n' !in RowLine(t)
  {
    var w := RowWords(t);
    assert IsSpace('\n');
    JoinAvoids(w, ' ', '\n');
    JoinTrimmed(w, ' ');
  }

  /** A line with at least four fields is parsed into the entry its
      fields give, in front of the entries of the following lines. */
  lemma ParseRowsCons(l: string, rest: seq<string>)
    requires |Fields(l)| >= 4
    ensures ParseRows([l] + rest) == [RowOf(Fields(l))] + ParseRows(rest)
  {
    assert ([l] + rest)[1..] == rest;
    assert !AllSpace(l);
  }

  /** The rendered rows parse back into their statuses. */
  lemma {:induction false} ParseRowLines(rows: seq<TableRow>)
    requires WordRows(rows)
    ensures ParseRows(RowLines(rows)) == StatusesOf(rows)
  {
    if |rows| > 0 {
      var t := rows[0];
      ParseRowLines(rows[1..]);
      RowWordsAreWords(t);
      FieldsJoin(RowWords(t));
      ParseRowsCons(RowLine(t), RowLines(rows[1..]));
    }
  }

  lemma RowWordsAreWords(t: TableRow)
    requires WordRow(t)
    ensures forall k :: 0 <= k < |RowWords(t)| ==> IsWord(RowWords(t)[k])
  {
  }

  /** A line of four or more words gives one entry whose size is the third
      word alone: a size printed as "4.7 GB" is read as "4.7", its unit is
      taken for the VRAM size, and the last word is taken for the digest. */
  lemma LineOfWords(words: seq<string>)
    requires |words| >= 4
    requires forall k :: 0 <= k < |words| ==> IsWord(words[k])
    ensures ParseRows([Join(words, ' ')]) ==
            [ModelStatus(words[0], words[2], words[3], words[|words| - 1], false)]
  {
    var l := Join(words, ' ');
    FieldsJoin(words);
    assert Fields(l) == words;
    ParseRowsCons(l, []);
    assert [l] + [] == [l];
    assert RowOf(Fields(l)) == ModelStatus(words[0], words[2], words[3], words[|words| - 1], false);
  }

  /** A listing line whose size column reads "4.7 GB" yields the size
      "4.7", the VRAM size "GB" and the last word as the digest. */
  lemma SampleSizeIsNumberOnly()
    ensures ParseRows([Join(["qwen:7b", "4f2", "4.7", "GB", "now"], ' ')])
            == [ModelStatus("qwen:7b", "4.7", "GB", "now", false)]
  {
    var words := ["qwen:7b", "4f2", "4.7", "GB", "now"];
    assert IsWord(words[0]) && IsWord(words[1]) && IsWord(words[2]);
    assert IsWord(words[3]) && IsWord(words[4]);
    LineOfWords(words);
  }

  // ---------------------------------------------------- resident models

  /** The decoded body of `GET /api/ps`. The body itself is `None` when it is
      not a decodable JSON object, `models` is `None` when that key is
      missing, and an entry's `name` is `None` when the entry has no `name`. */
  datatype PsModel = PsModel(name: Option<string>)
  datatype PsBody = PsBody(models: Option<seq<PsModel>>)

  /** `get_running_models`: the names under `models` of a 200 answer; any
      other status, a transport error, an undecodable body or an entry
      without a name gives the empty list. */
  function RunningModels(ps: HttpReply<Option<PsBody>>): (r: seq<string>)
    ensures r != [] ==> ps.Reply? && ps.status == 200 && ps.body.Some?
    ensures (ps.Reply? && ps.status == 200 && ps.body.Some? && ps.body.value.models.Some?
             && (forall k :: 0 <= k < |ps.body.value.models.value| ==> ps.body.value.models.value[k].name.Some?)) ==>
              |r| == |ps.body.value.models.value|
              && forall k :: 0 <= k < |r| ==> r[k] == ps.body.value.models.value[k].name.value
    ensures (ps.Reply? && ps.status == 200 && ps.body.Some?
             && (ps.body.value.models.None?
                 || exists k :: 0 <= k < |ps.body.value.models.value| && ps.body.value.models.value[k].name.None?)) ==>
              r == []
  {
    if ps.Unreachable? || ps.status != 200 || ps.body.None? then []
    else
      var ms := ps.body.value.models.GetOr([]);
      if exists k :: 0 <= k < |ms| && ms[k].name.None? then []
      else seq(|ms|, k requires 0 <= k < |ms| => ms[k].name.value)
  }

  // ----------------------------------------------------- readiness probe

  /** The decoded body of `POST /api/generate`: the `response` text, or
      `None` when the body is not JSON or has no textual `response`. */
  datatype ProbeBody = ProbeBody(response: Option<string>)

  /** `test_model`: the model is ready exactly when the daemon answers 200
      with a `response` holding something besides whitespace. */
  function TestModel(reply: HttpReply<ProbeBody>): (r: bool)
    ensures r <==> reply.Reply? && reply.status == 200 && reply.body.response.Some?
                   && !AllSpace(reply.body.response.value)
  {
    reply.Reply? && reply.status == 200 && reply.body.response.Some?
    && Strip(reply.body.response.value) != ""
  }

  // ------------------------------------------------------- pull and stop

  /** `pull_model`: with the progress display the exit status of
      `ollama pull` decides (an interrupt is a failure); without it the
      captured command decides. Either way success is an exit status of 0. */
  function PullModel(name: string, progress: bool, p: ProcessOutcome): (r: Run)
    ensures r.ok <==> p.Exited? && p.code == 0
    ensures r.actions == [Pull(name, progress)]
  {
    var ok := if progress then p.Exited? && p.code == 0 else RunCommand(p).success;
    Run(ok, [Pull(name, progress)])
  }

  /** `stop_model`: issues `ollama stop` and reports whether it exited with 0. */
  function StopModel(name: string, p: ProcessOutcome): (r: Run)
    ensures r.ok <==> p.Exited? && p.code == 0
    ensures r.actions == [Stop(name)]
  {
    Run(RunCommand(p).success, [Stop(name)])
  }

  // --------------------------------------------------------------- VRAM

  datatype VramUsage = VramUsage(totalVram: string, usedVram: string, modelsLoaded: seq<string>)

  const TotalVram: string := "8GB"
  const GbPerModel: nat := 5

  /** `get_vram_usage`: a fixed 8GB total and an estimate of 5GB per
      resident model, written as "~<n>GB". */
  function GetVramUsage(running: seq<string>): (r: VramUsage)
    ensures r.totalVram == TotalVram
    ensures r.modelsLoaded == running
    ensures |r.usedVram| >= 4 && r.usedVram[0] == '~'
    ensures r.usedVram[|r.usedVram| - 2..] == "GB"
    ensures var digits := r.usedVram[1..|r.usedVram| - 2];
            (forall k :: 0 <= k < |digits| ==> '0' <= digits[k] <= '9')
            && DecimalValue(digits) == GbPerModel * |running|
    ensures var digits := r.usedVram[1..|r.usedVram| - 2];
            |digits| > 1 ==> digits[0] != '0'
  {
    var n := NatToString(GbPerModel * |running|);
    var used := "~" + n + "GB";
    assert used[1..|used| - 2] == n;
    DecimalRoundTrip(GbPerModel * |running|);
    VramUsage(TotalVram, used, running)
  }
}
