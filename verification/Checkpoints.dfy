/**
 * Checkpoint stores for DAG executions (luciole/src/checkpoint.rs): one keeps entries in
 * memory, the other rewrites a text file of one line per record and replays it on load.
 */
module Checkpoints {
  import opened Results

  datatype Status = Running | Completed | Failed

  datatype Checkpoint = Checkpoint(dagId: string, completedNodes: seq<string>, failedNode: Option<string>,
                                   error: Option<string>, status: Status)

  /** What the four recording calls of a store carry. */
  datatype Record =
    | NodeCompleted(name: string, nodeType: string)
    | NodeFailed(name: string, error: string)
    | DagCompleted
    | DagFailed(error: string)

  predicate IsNode(r: Record) { r.NodeCompleted? || r.NodeFailed? }

  function Lookup<V>(m: map<string, V>, key: string): Option<V> {
    if key in m then Some(m[key]) else None
  }

  // ---- the memory store ----

  datatype Entry = Entry(completed: seq<(string, string)>, failedNode: Option<string>,
                         error: Option<string>, status: Status)

  /** A node record creates a missing entry; a record about the whole DAG does not. */
  function Updated(e: Option<Entry>, r: Record): Option<Entry> {
    var entry := if e.Some? then e.value else Entry([], None, None, Running);
    match r
    case NodeCompleted(name, nodeType) => Some(entry.(completed := entry.completed + [(name, nodeType)]))
    case NodeFailed(name, error) => Some(entry.(failedNode := Some(name), error := Some(error), status := Failed))
    case DagCompleted => if e.Some? then Some(entry.(status := Completed)) else None
    case DagFailed(error) => if e.Some? then Some(entry.(status := Failed, error := Some(error))) else None
  }

  function Names(completed: seq<(string, string)>): seq<string> {
    seq(|completed|, i requires 0 <= i < |completed| => completed[i].0)
  }

  function View(dagId: string, e: Option<Entry>): Option<Checkpoint> {
    if e.None? then None
    else Some(Checkpoint(dagId, Names(e.value.completed), e.value.failedNode, e.value.error, e.value.status))
  }

  function Recorded(data: map<string, Entry>, dagId: string, r: Record): map<string, Entry> {
    var e := Updated(Lookup(data, dagId), r);
    if e.Some? then data[dagId := e.value] else data
  }

  class MemoryStore {
    var data: map<string, Entry>

    constructor ()
      ensures data == map[]
    {
      data := map[];
    }

    method SaveNodeCompleted(dagId: string, name: string, nodeType: string)
      modifies this
      ensures data == Recorded(old(data), dagId, NodeCompleted(name, nodeType))
      ensures dagId in data && data[dagId] ==
                if dagId !in old(data) then Entry([(name, nodeType)], None, None, Running)
                else old(data)[dagId].(completed := old(data)[dagId].completed + [(name, nodeType)])
      ensures data - {dagId} == old(data) - {dagId}
    {
      if dagId !in data {
        data := data[dagId := Entry([], None, None, Running)];
      }
      var entry := data[dagId];
      data := data[dagId := entry.(completed := entry.completed + [(name, nodeType)])];
    }

    method SaveNodeFailed(dagId: string, name: string, error: string)
      modifies this
      ensures data == Recorded(old(data), dagId, NodeFailed(name, error))
      ensures dagId in data && data[dagId] ==
                Entry(if dagId in old(data) then old(data)[dagId].completed else [], Some(name), Some(error), Failed)
      ensures data - {dagId} == old(data) - {dagId}
    {
      if dagId !in data {
        data := data[dagId := Entry([], None, None, Running)];
      }
      var entry := data[dagId];
      data := data[dagId := entry.(failedNode := Some(name), error := Some(error), status := Failed)];
    }

    method MarkCompleted(dagId: string)
      modifies this
      ensures data == Recorded(old(data), dagId, DagCompleted)
      ensures dagId !in old(data) ==> data == old(data)
      ensures dagId in old(data) ==> data == old(data)[dagId := old(data)[dagId].(status := Completed)]
    {
      if dagId in data {
        data := data[dagId := data[dagId].(status := Completed)];
      }
    }

    method MarkFailed(dagId: string, error: string)
      modifies this
      ensures data == Recorded(old(data), dagId, DagFailed(error))
      ensures dagId !in old(data) ==> data == old(data)
      ensures dagId in old(data) ==>
                data == old(data)[dagId := old(data)[dagId].(status := Failed, error := Some(error))]
    {
      if dagId in data {
        data := data[dagId := data[dagId].(status := Failed, error := Some(error))];
      }
    }

    method Load(dagId: string) returns (r: Option<Checkpoint>)
      ensures r == View(dagId, Lookup(data, dagId))
      ensures r.Some? <==> dagId in data
      ensures dagId in data ==>
                var entry, c := data[dagId], r.value;
                && c.dagId == dagId && c.failedNode == entry.failedNode && c.error == entry.error
                && c.status == entry.status && |c.completedNodes| == |entry.completed|
                && forall i | 0 <= i < |entry.completed| :: c.completedNodes[i] == entry.completed[i].0
    {
      if dagId !in data {
        return None;
      }
      var entry := data[dagId];
      var names: seq<string> := [];
      for i := 0 to |entry.completed|
        invariant names == Names(entry.completed[..i])
      {
        names := names + [entry.completed[i].0];
      }
      assert entry.completed[..|entry.completed|] == entry.completed;
      r := Some(Checkpoint(dagId, names, entry.failedNode, entry.error, entry.status));
    }
  }

  // ---- lines of text ----

  /** Position of the first `c`, or the length when there is none. */
  function IndexOf(s: string, c: char): (k: nat)
    ensures k <= |s| && c !in s[..k] && (k < |s| ==> s[k] == c)
  {
    if s == [] || s[0] == c then 0 else
      var k := IndexOf(s[1..], c) + 1;
      assert s[..k] == [s[0]] + s[1..][..k - 1];
      k
  }

  lemma {:induction false} IndexUnique(s: string, c: char, k: nat)
    requires k < |s| && s[k] == c && c !in s[..k]
    ensures IndexOf(s, c) == k
  {
    if k > 0 {
      assert s[0] in s[..k];
      assert s[..k] == [s[0]] + s[1..][..k - 1];
      IndexUnique(s[1..], c, k - 1);
    }
  }

  predicate EndsInReturn(s: string) { s != [] && s[|s| - 1] == '\r' }

  function DropReturn(s: string): string { if EndsInReturn(s) then s[..|s| - 1] else s }

  /** Rust's `str::lines`: a newline, or a return and a newline, ends a line. */
  function Lines(s: string): seq<string> {
    if s == [] then []
    else
      var k := IndexOf(s, '\n');
      if k == |s| then [s] else [DropReturn(s[..k])] + Lines(s[k + 1..])
  }

  function Join(lines: seq<string>): string {
    if lines == [] then [] else if |lines| == 1 then lines[0] else lines[0] + ['\n'] + Join(lines[1..])
  }

  predicate OneLine(s: string) { '\n' !in s && !EndsInReturn(s) }

  lemma {:induction false} LinesOfJoin(lines: seq<string>)
    requires forall i | 0 <= i < |lines| :: OneLine(lines[i]) && lines[i] != []
    ensures Lines(Join(lines)) == lines
  {
    if |lines| > 1 {
      var s := Join(lines);
      var k := |lines[0]|;
      assert s == lines[0] + (['\n'] + Join(lines[1..]));
      assert s[..k] == lines[0];
      IndexUnique(s, '\n', k);
      assert s[k + 1..] == Join(lines[1..]);
      LinesOfJoin(lines[1..]);
    }
  }

  /** No line holds a newline, whatever the text. */
  lemma {:induction false} LinesUnbroken(s: string)
    ensures forall i | 0 <= i < |Lines(s)| :: '\n' !in Lines(s)[i]
  {
    if s != [] {
      var k := IndexOf(s, '\n');
      if k == |s| {
        assert s[..k] == s;
      } else {
        LinesUnbroken(s[k + 1..]);
      }
    }
  }

  /** Lines are joined by newlines. */
  lemma {:induction false} JoinMeans(lines: seq<string>, last: string)
    ensures Join([last]) == last
    ensures lines != [] ==> Join(lines + [last]) == Join(lines) + "\n" + last
  {
    if lines != [] {
      assert (lines + [last])[1..] == lines[1..] + [last];
      if |lines| > 1 {
        JoinMeans(lines[1..], last);
        var first := lines[0] + "\n";
        assert first + (Join(lines[1..]) + "\n" + last) == first + Join(lines[1..]) + "\n" + last;
      } else {
        assert lines[1..] + [last] == [last];
      }
    }
  }

  /** A line ends at the first newline, and loses a return before it. */
  lemma LinesMeans(line: string, rest: string)
    requires '\n' !in line
    ensures Lines(line + "\n" + rest) ==
            [if line != [] && line[|line| - 1] == '\r' then line[..|line| - 1] else line] + Lines(rest)
    ensures line != [] ==> Lines(line) == [line]
  {
    var s := line + "\n" + rest;
    assert s[..|line|] == line && s[|line| + 1..] == rest;
    IndexUnique(s, '\n', |line|);
    if line != [] {
      assert IndexOf(line, '\n') == |line|;
    }
  }

  // ---- the file store ----

  const COMPLETED := "COMPLETED:"
  const FAILED := "FAILED:"
  const STATUS_COMPLETED := "STATUS:COMPLETED"
  const STATUS_FAILED := "STATUS:FAILED:"

  function Line(r: Record): string {
    match r
    case NodeCompleted(name, nodeType) => COMPLETED + name + ":" + nodeType
    case NodeFailed(name, error) => FAILED + name + ":" + error
    case DagCompleted => STATUS_COMPLETED
    case DagFailed(error) => STATUS_FAILED + error
  }

  /** Everything up to the first colon, and what follows it if there is one. */
  function SplitColon(s: string): (string, Option<string>) {
    var k := IndexOf(s, ':');
    (s[..k], if k < |s| then Some(s[k + 1..]) else None)
  }

  function ReplayLine(c: Checkpoint, line: string): Checkpoint {
    if COMPLETED <= line then
      c.(completedNodes := c.completedNodes + [SplitColon(line[|COMPLETED|..]).0])
    else if FAILED <= line then
      var (name, error) := SplitColon(line[|FAILED|..]);
      c.(failedNode := Some(name), error := error, status := Failed)
    else if line == STATUS_COMPLETED then
      c.(status := Completed)
    else if STATUS_FAILED <= line then
      c.(status := Failed, error := Some(line[|STATUS_FAILED|..]))
    else c
  }

  function Replay(dagId: string, lines: seq<string>): Checkpoint {
    if lines == [] then Checkpoint(dagId, [], None, None, Running)
    else ReplayLine(Replay(dagId, lines[..|lines| - 1]), lines[|lines| - 1])
  }

  function ReadBack(dagId: string, content: Option<string>): Option<Checkpoint> {
    if content.None? then None else Some(Replay(dagId, Lines(content.value)))
  }

  function Appended(files: map<string, string>, dagId: string, r: Record): map<string, string> {
    var lines := if dagId in files then Lines(files[dagId]) else [];
    files[dagId := Join(lines + [Line(r)])]
  }

  /** `files` holds the content of each DAG's checkpoint file. */
  class FileStore {
    var files: map<string, string>

    constructor ()
      ensures files == map[]
    {
      files := map[];
    }

    /** The lines of a file, none if it does not exist. */
    ghost function LinesIn(dagId: string): seq<string>
      reads this
    {
      if dagId in files then Lines(files[dagId]) else []
    }

    function ReadLines(dagId: string): Option<seq<string>>
      reads this
    {
      if dagId in files then Some(Lines(files[dagId])) else None
    }

    method WriteLines(dagId: string, lines: seq<string>)
      modifies this
      ensures files == old(files)[dagId := Join(lines)]
    {
      files := files[dagId := Join(lines)];
    }

    method SaveNodeCompleted(dagId: string, name: string, nodeType: string)
      modifies this
      ensures files == Appended(old(files), dagId, NodeCompleted(name, nodeType))
      ensures files == old(files)[dagId := Join(old(LinesIn(dagId)) + ["COMPLETED:" + name + ":" + nodeType])]
    {
      var read := ReadLines(dagId);
      var lines := if read.Some? then read.value else [];
      WriteLines(dagId, lines + ["COMPLETED:" + name + ":" + nodeType]);
    }

    method SaveNodeFailed(dagId: string, name: string, error: string)
      modifies this
      ensures files == Appended(old(files), dagId, NodeFailed(name, error))
      ensures files == old(files)[dagId := Join(old(LinesIn(dagId)) + ["FAILED:" + name + ":" + error])]
    {
      var read := ReadLines(dagId);
      var lines := if read.Some? then read.value else [];
      WriteLines(dagId, lines + ["FAILED:" + name + ":" + error]);
    }

    method MarkCompleted(dagId: string)
      modifies this
      ensures files == Appended(old(files), dagId, DagCompleted)
      ensures files == old(files)[dagId := Join(old(LinesIn(dagId)) + ["STATUS:COMPLETED"])]
    {
      var read := ReadLines(dagId);
      var lines := if read.Some? then read.value else [];
      WriteLines(dagId, lines + ["STATUS:COMPLETED"]);
    }

    method MarkFailed(dagId: string, error: string)
      modifies this
      ensures files == Appended(old(files), dagId, DagFailed(error))
      ensures files == old(files)[dagId := Join(old(LinesIn(dagId)) + ["STATUS:FAILED:" + error])]
    {
      var read := ReadLines(dagId);
      var lines := if read.Some? then read.value else [];
      WriteLines(dagId, lines + ["STATUS:FAILED:" + error]);
    }

    method Load(dagId: string) returns (r: Option<Checkpoint>)
      ensures r == ReadBack(dagId, Lookup(files, dagId))
    {
      var read := ReadLines(dagId);
      if read.None? {
        return None;
      }
      var lines := read.value;
      var completed: seq<string>, failedNode, error, status := [], None, None, Running;
      for i := 0 to |lines|
        invariant Checkpoint(dagId, completed, failedNode, error, status) == Replay(dagId, lines[..i])
      {
        var line := lines[i];
        assert lines[..i + 1][..i] == lines[..i];
        if COMPLETED <= line {
          completed := completed + [SplitColon(line[|COMPLETED|..]).0];
        } else if FAILED <= line {
          var parts := SplitColon(line[|FAILED|..]);
          failedNode, error, status := Some(parts.0), parts.1, Failed;
        } else if line == STATUS_COMPLETED {
          status := Completed;
        } else if STATUS_FAILED <= line {
          status, error := Failed, Some(line[|STATUS_FAILED|..]);
        }
      }
      assert lines[..|lines|] == lines;
      r := Some(Checkpoint(dagId, completed, failedNode, error, status));
    }
  }

  // ---- one record on both stores ----

  lemma SplitsAtColon(name: string, rest: string)
    ensures var parts := SplitColon(name + ":" + rest);
            && (':' !in name ==> parts == (name, Some(rest)))
            && (':' in name ==> parts.0 != name)
  {
    var s := name + ":" + rest;
    if ':' !in name {
      assert s[..|name|] == name;
      IndexUnique(s, ':', |name|);
      assert s[|name| + 1..] == rest;
    }
  }

  /** A node name without a colon. */
  predicate Parses(r: Record) { IsNode(r) ==> ':' !in r.name }

  lemma ReplayCompleted(c: Checkpoint, name: string, nodeType: string)
    ensures ReplayLine(c, Line(NodeCompleted(name, nodeType))) ==
              c.(completedNodes := c.completedNodes + [SplitColon(name + ":" + nodeType).0])
  {
    assert Line(NodeCompleted(name, nodeType)) == COMPLETED + (name + ":" + nodeType);
  }

  lemma ReplayFailed(c: Checkpoint, name: string, error: string)
    ensures var parts := SplitColon(name + ":" + error);
            ReplayLine(c, Line(NodeFailed(name, error))) ==
              c.(failedNode := Some(parts.0), error := parts.1, status := Failed)
  {
    var line := Line(NodeFailed(name, error));
    assert line == FAILED + (name + ":" + error);
    assert line[0] == 'F' && COMPLETED[0] == 'C';
  }

  lemma ReplayStatus(c: Checkpoint, error: string)
    ensures ReplayLine(c, Line(DagCompleted)) == c.(status := Completed)
    ensures ReplayLine(c, Line(DagFailed(error))) == c.(status := Failed, error := Some(error))
  {
    var line := Line(DagFailed(error));
    assert line[0] == 'S' && STATUS_COMPLETED[0] == 'S' && COMPLETED[0] == 'C' && FAILED[0] == 'F';
    assert line[7] == 'F' && STATUS_COMPLETED[7] == 'C';
    assert line[|STATUS_FAILED|..] == error;
  }

  /** A failure without a colon has no error. */
  lemma ReplayBare(c: Checkpoint, name: string)
    requires ':' !in name
    ensures ReplayLine(c, "FAILED:" + name) == c.(failedNode := Some(name), error := None, status := Failed)
  {
    var line := "FAILED:" + name;
    assert line[0] == 'F' && COMPLETED[0] == 'C' && line[|FAILED|..] == name;
    assert IndexOf(name, ':') == |name| && name[..|name|] == name;
  }

  /** A line without a known prefix says nothing. */
  lemma ReplayOther(c: Checkpoint, line: string)
    requires !("COMPLETED:" <= line) && !("FAILED:" <= line)
    requires line != "STATUS:COMPLETED" && !("STATUS:FAILED:" <= line)
    ensures ReplayLine(c, line) == c
  {
  }

  /** From equal checkpoints, one more record keeps them equal exactly when its node name parses. */
  lemma StepAgrees(dagId: string, e: Entry, r: Record)
    ensures var c := View(dagId, Some(e)).value;
            View(dagId, Updated(Some(e), r)) == Some(ReplayLine(c, Line(r))) <==> Parses(r)
  {
    var c := View(dagId, Some(e)).value;
    match r
    case NodeCompleted(name, nodeType) =>
      ReplayCompleted(c, name, nodeType);
      SplitsAtColon(name, nodeType);
      assert Names(e.completed + [(name, nodeType)]) == Names(e.completed) + [name];
      var other := SplitColon(name + ":" + nodeType).0;
      assert (Names(e.completed) + [name])[|e.completed|] == name;
      assert (Names(e.completed) + [other])[|e.completed|] == other;
    case NodeFailed(name, error) =>
      ReplayFailed(c, name, error);
      SplitsAtColon(name, error);
    case DagCompleted => ReplayStatus(c, []);
    case DagFailed(error) => ReplayStatus(c, error);
  }

  /** What a file with these lines, if there is one, loads as. */
  function Shown(dagId: string, lines: seq<string>): Option<Checkpoint> {
    if lines == [] then None else Some(Replay(dagId, lines))
  }

  lemma RecordAgrees(dagId: string, e: Option<Entry>, lines: seq<string>, r: Record)
    requires View(dagId, e) == Shown(dagId, lines)
    ensures View(dagId, Updated(e, r)) == Shown(dagId, lines + [Line(r)])
            <==> Parses(r) && (IsNode(r) || lines != [])
  {
    var blank := Entry([], None, None, Running);
    assert (lines + [Line(r)])[..|lines|] == lines;
    assert Replay(dagId, lines + [Line(r)]) == ReplayLine(Replay(dagId, lines), Line(r));
    if e.Some? {
      StepAgrees(dagId, e.value, r);
    } else {
      assert Names(blank.completed) == [];
      assert Replay(dagId, lines) == View(dagId, Some(blank)).value;
      StepAgrees(dagId, blank, r);
    }
  }

  // ---- whole runs ----

  /** A run interleaves the records of any number of DAGs. */
  type Event = (string, Record)

  predicate Printable(r: Record) { OneLine(Line(r)) }

  /** Node types hold no newline, and no text ends in a carriage return. */
  predicate Tidy(r: Record) {
    match r
    case NodeCompleted(_, nodeType) => OneLine(nodeType)
    case NodeFailed(_, error) => !EndsInReturn(error)
    case DagCompleted => true
    case DagFailed(error) => !EndsInReturn(error)
  }

  /** Neither the node's name nor the error holds a newline. */
  predicate Unbroken(r: Record) {
    (IsNode(r) ==> '\n' !in r.name) && (r.NodeFailed? || r.DagFailed? ==> '\n' !in r.error)
  }

  lemma TidyPrints(r: Record)
    requires Tidy(r) && Unbroken(r)
    ensures Printable(r)
  {
    var line := Line(r);
    match r
    case NodeCompleted(name, nodeType) => assert nodeType != [] ==> line[|line| - 1] == nodeType[|nodeType| - 1];
    case NodeFailed(name, error) => assert error != [] ==> line[|line| - 1] == error[|error| - 1];
    case DagCompleted =>
    case DagFailed(error) => assert error != [] ==> line[|line| - 1] == error[|error| - 1];
  }

  // ---- broken text ----

  predicate NoNewline(s: Option<string>) { s.Some? ==> '\n' !in s.value }

  predicate Clean(c: Checkpoint) {
    && (forall i | 0 <= i < |c.completedNodes| :: '\n' !in c.completedNodes[i])
    && NoNewline(c.failedNode) && NoNewline(c.error)
  }

  lemma ReplayLineClean(c: Checkpoint, line: string)
    requires Clean(c) && '\n' !in line
    ensures Clean(ReplayLine(c, line))
  {
  }

  lemma {:induction false} ReplayClean(dagId: string, lines: seq<string>)
    requires forall i | 0 <= i < |lines| :: '\n' !in lines[i]
    ensures Clean(Replay(dagId, lines))
  {
    if lines != [] {
      ReplayClean(dagId, lines[..|lines| - 1]);
      ReplayLineClean(Replay(dagId, lines[..|lines| - 1]), lines[|lines| - 1]);
    }
  }

  /** Memory keeps a newline that no file can give back. */
  lemma BrokenIsLost(dagId: string, e: Option<Entry>, r: Record, content: string)
    requires !Unbroken(r)
    ensures View(dagId, Updated(e, r)) != ReadBack(dagId, Some(content))
  {
    LinesUnbroken(content);
    ReplayClean(dagId, Lines(content));
    if r.NodeCompleted? {
      var entry := Updated(e, r).value;
      var last := |entry.completed| - 1;
      assert Names(entry.completed)[last] == r.name;
    }
  }

  predicate AllPrintable(run: seq<Event>) {
    run == [] || (Printable(run[|run| - 1].1) && AllPrintable(run[..|run| - 1]))
  }

  predicate AllTidy(run: seq<Event>) {
    run == [] || (Tidy(run[|run| - 1].1) && AllTidy(run[..|run| - 1]))
  }

  function MemoryAfter(run: seq<Event>): map<string, Entry> {
    if run == [] then map[]
    else Recorded(MemoryAfter(run[..|run| - 1]), run[|run| - 1].0, run[|run| - 1].1)
  }

  function FilesAfter(run: seq<Event>): map<string, string> {
    if run == [] then map[]
    else Appended(FilesAfter(run[..|run| - 1]), run[|run| - 1].0, run[|run| - 1].1)
  }

  function LinesOf(run: seq<Event>, dagId: string): seq<string> {
    if run == [] then []
    else
      var lines := LinesOf(run[..|run| - 1], dagId);
      if run[|run| - 1].0 == dagId then lines + [Line(run[|run| - 1].1)] else lines
  }

  lemma {:induction false} LinesPrintable(run: seq<Event>, dagId: string)
    requires AllPrintable(run)
    ensures forall i | 0 <= i < |LinesOf(run, dagId)| :: OneLine(LinesOf(run, dagId)[i]) && LinesOf(run, dagId)[i] != []
  {
    if run != [] {
      LinesPrintable(run[..|run| - 1], dagId);
    }
  }

  /** A DAG's file holds one line per record of that DAG, in order. */
  lemma {:induction false} FilesHoldLines(run: seq<Event>, dagId: string)
    requires AllPrintable(run)
    ensures LinesOf(run, dagId) == [] <==> dagId !in FilesAfter(run)
    ensures dagId in FilesAfter(run) ==> Lines(FilesAfter(run)[dagId]) == LinesOf(run, dagId)
  {
    if run != [] {
      var init := run[..|run| - 1];
      FilesHoldLines(init, dagId);
      if run[|run| - 1].0 == dagId {
        LinesPrintable(run, dagId);
        LinesOfJoin(LinesOf(run, dagId));
        assert [] + [Line(run[|run| - 1].1)] == [Line(run[|run| - 1].1)];
      }
    }
  }

  predicate Seen(run: seq<Event>, dagId: string) { exists i | 0 <= i < |run| :: run[i].0 == dagId }

  lemma {:induction false} SeenHasLines(run: seq<Event>, dagId: string)
    ensures Seen(run, dagId) <==> LinesOf(run, dagId) != []
  {
    if run != [] {
      var init := run[..|run| - 1];
      SeenHasLines(init, dagId);
      if Seen(run, dagId) && run[|run| - 1].0 != dagId {
        var i :| 0 <= i < |run| && run[i].0 == dagId;
        assert init[i].0 == dagId;
      }
      if Seen(init, dagId) {
        var i :| 0 <= i < |init| && init[i].0 == dagId;
        assert run[i].0 == dagId;
      }
      if run[|run| - 1].0 == dagId {
        assert Seen(run, dagId);
      }
    }
  }

  predicate SameAt(run: seq<Event>, dagId: string) {
    View(dagId, Lookup(MemoryAfter(run), dagId)) == ReadBack(dagId, Lookup(FilesAfter(run), dagId))
  }

  /** Both stores give the same answer for every DAG. */
  ghost predicate Agree(run: seq<Event>) {
    forall dagId: string :: SameAt(run, dagId)
  }

  /** The record names its node without a colon, has no newline and, if it opens a DAG, is about a node. */
  predicate FitsAfter(init: seq<Event>, dagId: string, r: Record) {
    Parses(r) && Unbroken(r) && (IsNode(r) || Seen(init, dagId))
  }

  predicate LastFits(run: seq<Event>)
    requires run != []
  {
    FitsAfter(run[..|run| - 1], run[|run| - 1].0, run[|run| - 1].1)
  }

  /** Every record fits what came before it. */
  predicate Fits(run: seq<Event>) {
    run == [] || (LastFits(run) && Fits(run[..|run| - 1]))
  }

  /** The stores agree at every point of the run. */
  ghost predicate AlwaysAgree(run: seq<Event>) {
    Agree(run) && (run == [] || AlwaysAgree(run[..|run| - 1]))
  }

  /** The file of this DAG loads as its lines say. */
  predicate LoadsLines(run: seq<Event>, dagId: string) {
    ReadBack(dagId, Lookup(FilesAfter(run), dagId)) == Shown(dagId, LinesOf(run, dagId))
  }

  lemma ReadBackShows(run: seq<Event>, dagId: string)
    requires AllPrintable(run)
    ensures LoadsLines(run, dagId)
  {
    FilesHoldLines(run, dagId);
  }

  lemma OtherDag(run: seq<Event>, init: seq<Event>, dagId: string, r: Record, id: string)
    requires run == init + [(dagId, r)] && id != dagId
    ensures SameAt(run, id) <==> SameAt(init, id)
  {
    assert run[..|run| - 1] == init;
    assert MemoryAfter(run) == Recorded(MemoryAfter(init), dagId, r);
    assert FilesAfter(run) == Appended(FilesAfter(init), dagId, r);
  }

  lemma {:induction false} FittingPrints(run: seq<Event>)
    requires AllTidy(run) && Fits(run)
    ensures AllPrintable(run)
  {
    if run != [] {
      FittingPrints(run[..|run| - 1]);
      TidyPrints(run[|run| - 1].1);
    }
  }

  lemma RecordedAt(data: map<string, Entry>, dagId: string, r: Record)
    ensures Lookup(Recorded(data, dagId, r), dagId) == Updated(Lookup(data, dagId), r)
  {
  }

  lemma LastPrinted(run: seq<Event>, init: seq<Event>, dagId: string, r: Record)
    requires run == init + [(dagId, r)] && LoadsLines(init, dagId) && LoadsLines(run, dagId) && SameAt(init, dagId)
    ensures SameAt(run, dagId) <==> Parses(r) && (IsNode(r) || Seen(init, dagId))
  {
    assert run[..|run| - 1] == init;
    SeenHasLines(init, dagId);
    RecordAgrees(dagId, Lookup(MemoryAfter(init), dagId), LinesOf(init, dagId), r);
    RecordedAt(MemoryAfter(init), dagId, r);
  }

  lemma LastUnbroken(run: seq<Event>, init: seq<Event>, dagId: string, r: Record)
    requires run == init + [(dagId, r)] && AllPrintable(init) && AllPrintable(run) && SameAt(init, dagId)
    ensures SameAt(run, dagId) <==> Parses(r) && (IsNode(r) || Seen(init, dagId))
  {
    ReadBackShows(init, dagId);
    ReadBackShows(run, dagId);
    LastPrinted(run, init, dagId, r);
  }

  lemma LastBroken(run: seq<Event>, init: seq<Event>, dagId: string, r: Record)
    requires run == init + [(dagId, r)] && !Unbroken(r)
    ensures !SameAt(run, dagId)
  {
    assert run[..|run| - 1] == init;
    BrokenIsLost(dagId, Lookup(MemoryAfter(init), dagId), r, FilesAfter(run)[dagId]);
    RecordedAt(MemoryAfter(init), dagId, r);
  }

  lemma LastDag(run: seq<Event>, init: seq<Event>, dagId: string, r: Record)
    requires run == init + [(dagId, r)] && AllPrintable(init) && Tidy(r) && SameAt(init, dagId)
    ensures SameAt(run, dagId) <==> FitsAfter(init, dagId, r)
  {
    if Unbroken(r) {
      TidyPrints(r);
      assert run[..|run| - 1] == init;
      LastUnbroken(run, init, dagId, r);
    } else {
      LastBroken(run, init, dagId, r);
    }
  }

  lemma LastStep(run: seq<Event>, init: seq<Event>, dagId: string, r: Record)
    requires run == init + [(dagId, r)] && AllPrintable(init) && Tidy(r) && Agree(init)
    ensures Agree(run) <==> FitsAfter(init, dagId, r)
  {
    forall id: string | id != dagId
      ensures SameAt(run, id)
    {
      OtherDag(run, init, dagId, r, id);
    }
    assert SameAt(init, dagId);
    LastDag(run, init, dagId, r);
  }

  lemma SplitLast(run: seq<Event>)
    requires run != []
    ensures run == run[..|run| - 1] + [(run[|run| - 1].0, run[|run| - 1].1)]
  {
  }

  lemma NextAgrees(run: seq<Event>)
    requires run != [] && Tidy(run[|run| - 1].1) && AllPrintable(run[..|run| - 1]) && Agree(run[..|run| - 1])
    ensures Agree(run) <==> LastFits(run)
  {
    SplitLast(run);
    LastStep(run, run[..|run| - 1], run[|run| - 1].0, run[|run| - 1].1);
  }

  /**
   * Replaying the text log agrees with memory at every point of a run exactly when node names
   * have no colon, names and errors no newline, and no DAG starts with a record about the whole DAG.
   */
  lemma {:induction false} StoresAgree(run: seq<Event>)
    requires AllTidy(run)
    ensures AlwaysAgree(run) <==> Fits(run)
  {
    if run == [] {
      assert Agree([]);
    } else {
      StoresAgree(run[..|run| - 1]);
      if Fits(run[..|run| - 1]) {
        FittingPrints(run[..|run| - 1]);
        NextAgrees(run);
      }
    }
  }

  lemma ColonDiverges()
    ensures !Agree([("dag", NodeCompleted("merge:0", "merge"))])
  {
    var r := NodeCompleted("merge:0", "merge");
    assert "merge:0"[5] == ':';
    assert Tidy(r);
    LastStep([("dag", r)], [], "dag", r);
  }

  lemma UnopenedDagDiverges()
    ensures !Agree([("dag", DagCompleted)])
  {
    LastStep([("dag", DagCompleted)], [], "dag", DagCompleted);
  }

  lemma NewlineDiverges()
    ensures !Agree([("dag", NodeFailed("merge", "disk full\nretry later"))])
  {
    var r := NodeFailed("merge", "disk full\nretry later");
    assert r.error[9] == '\n';
    LastStep([("dag", r)], [], "dag", r);
  }

  // ---- both stores through a run ----

  method RecordOnBoth(memory: MemoryStore, files: FileStore, dagId: string, r: Record)
    modifies memory, files
    ensures memory.data == Recorded(old(memory.data), dagId, r)
    ensures files.files == Appended(old(files.files), dagId, r)
  {
    match r
    case NodeCompleted(name, nodeType) =>
      memory.SaveNodeCompleted(dagId, name, nodeType);
      files.SaveNodeCompleted(dagId, name, nodeType);
    case NodeFailed(name, error) =>
      memory.SaveNodeFailed(dagId, name, error);
      files.SaveNodeFailed(dagId, name, error);
    case DagCompleted =>
      memory.MarkCompleted(dagId);
      files.MarkCompleted(dagId);
    case DagFailed(error) =>
      memory.MarkFailed(dagId, error);
      files.MarkFailed(dagId, error);
  }

  method RecordAll(run: seq<Event>) returns (memory: MemoryStore, files: FileStore)
    ensures memory.data == MemoryAfter(run) && files.files == FilesAfter(run)
  {
    memory := new MemoryStore();
    files := new FileStore();
    for i := 0 to |run|
      invariant fresh(memory) && fresh(files)
      invariant memory.data == MemoryAfter(run[..i]) && files.files == FilesAfter(run[..i])
    {
      assert run[..i + 1][..i] == run[..i];
      RecordOnBoth(memory, files, run[i].0, run[i].1);
    }
    assert run[..|run|] == run;
  }

  /** Records a run on fresh stores and loads a DAG from both. */
  method Drive(run: seq<Event>, dagId: string) returns (m: Option<Checkpoint>, f: Option<Checkpoint>)
    ensures m == View(dagId, Lookup(MemoryAfter(run), dagId))
    ensures f == ReadBack(dagId, Lookup(FilesAfter(run), dagId))
    ensures AllTidy(run) && Fits(run) ==> m == f
  {
    var memory, files := RecordAll(run);
    m := memory.Load(dagId);
    f := files.Load(dagId);
    if AllTidy(run) && Fits(run) {
      StoresAgree(run);
      assert SameAt(run, dagId);
    }
  }

  // ---- recovery ----

  function CompletedIn(run: seq<Event>, dagId: string): seq<string> {
    if run == [] then []
    else
      var names, (id, r) := CompletedIn(run[..|run| - 1], dagId), run[|run| - 1];
      if id == dagId && r.NodeCompleted? then names + [r.name] else names
  }

  lemma {:induction false} MemoryNames(run: seq<Event>, dagId: string)
    ensures match Lookup(MemoryAfter(run), dagId)
            case Some(entry) => Names(entry.completed) == CompletedIn(run, dagId)
            case None => CompletedIn(run, dagId) == []
  {
    if run != [] {
      MemoryNames(run[..|run| - 1], dagId);
    }
  }

  /** After a crash the file tells exactly which nodes completed, in order. */
  lemma Recovery(run: seq<Event>, dagId: string)
    requires AllTidy(run) && Fits(run)
    ensures match ReadBack(dagId, Lookup(FilesAfter(run), dagId))
            case Some(c) => Seen(run, dagId) && c.completedNodes == CompletedIn(run, dagId)
            case None => !Seen(run, dagId)
  {
    StoresAgree(run);
    FittingPrints(run);
    assert SameAt(run, dagId);
    MemoryNames(run, dagId);
    ReadBackShows(run, dagId);
    SeenHasLines(run, dagId);
  }
}
