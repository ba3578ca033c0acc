/** `process_directory`: the walk over the input tree.

The walk is given as the sequence of files `os.walk` reports, each as its
directory relative to the input root and its name; the order is whatever the
filesystem gives. Every file bumps `total`. A file whose name the classifier
accepts is sent to `downsample_image` with its mirrored output path, and
`processed` is bumped after the call, whatever the call's outcome.
 */
module Walk {
  import opened Paths
  import opened Extensions
  import opened Downsample

  /** One file reported by the walk: its directory below the input root and its name. */
  datatype Entry = Entry(dir: Path, name: Name)

  /** The two roots of one run, and what the libraries would do. */
  datatype Setup = Setup(inRoot: Path, outRoot: Path, disk: Disk)

  /** One call of `downsample_image`: its two paths and its outcome. */
  datatype Dispatch = Dispatch(input: Path, output: Path, report: Report)

  /** The two counters, and the calls made, in order. */
  datatype Summary = Summary(total: nat, processed: nat, log: seq<Dispatch>)

  /** `os.path.join(root, file)`, where `root` is the input root joined with the entry's directory. */
  function InputFile(c: Setup, e: Entry): Path
  {
    c.inRoot + e.dir + [e.name]
  }

  /** `os.path.join(output_path, os.path.relpath(input_file, input_path))`. */
  function OutputFile(c: Setup, e: Entry): Path
  {
    var input := InputFile(c, e);
    assert input == c.inRoot + (e.dir + [e.name]);
    c.outRoot + RelPath(input, c.inRoot).value
  }

  /** The call the walk makes for an accepted entry. */
  function DispatchFor(c: Setup, e: Entry): Dispatch
  {
    var input := InputFile(c, e);
    var output := OutputFile(c, e);
    Dispatch(input, output, DownsampleImage(input, output, c.disk, DefaultScale))
  }

  /** One iteration of the inner loop. */
  function Step(c: Setup, s: Summary, e: Entry): Summary
  {
    if IsImageName(e.name) then
      Summary(s.total + 1, s.processed + 1, s.log + [DispatchFor(c, e)])
    else
      Summary(s.total + 1, s.processed, s.log)
  }

  /** The state after visiting `entries` in order, starting from zero counters. */
  function Process(c: Setup, entries: seq<Entry>): Summary
    decreases |entries|
  {
    if |entries| == 0 then Summary(0, 0, [])
    else Step(c, Process(c, entries[..|entries| - 1]), entries[|entries| - 1])
  }

  /** Reference definition: the entries the classifier accepts, in walk order. */
  function Selected(entries: seq<Entry>): seq<Entry>
    decreases |entries|
  {
    if |entries| == 0 then []
    else
      var rest := Selected(entries[..|entries| - 1]);
      var e := entries[|entries| - 1];
      if IsImageName(e.name) then rest + [e] else rest
  }

  /** The walk reports every file once. */
  ghost predicate Distinct<T>(s: seq<T>)
  {
    forall i, j :: 0 <= i < j < |s| ==> s[i] != s[j]
  }

  /** `process_directory` with its loop: visit the entries in order, count each,
      dispatch the accepted ones. No outcome stops the loop. */
  method ProcessDirectory(c: Setup, entries: seq<Entry>) returns (s: Summary)
    ensures s == Process(c, entries)
    ensures s.total == |entries|
    ensures s.processed == |s.log| == |Selected(entries)| <= s.total
    ensures forall k :: 0 <= k < |s.log| ==> s.log[k] == DispatchFor(c, Selected(entries)[k])
  {
    var total := 0;
    var processed := 0;
    var log: seq<Dispatch> := [];
    var i := 0;
    while i < |entries|
      invariant 0 <= i <= |entries|
      invariant Summary(total, processed, log) == Process(c, entries[..i])
      invariant total == i && processed == |log| <= total
    {
      var e := entries[i];
      assert entries[..i + 1][..i] == entries[..i];
      assert Process(c, entries[..i + 1]) == Step(c, Process(c, entries[..i]), e);
      total := total + 1;
      if IsImageName(e.name) {
        var inputFile := c.inRoot + e.dir + [e.name];
        assert inputFile == c.inRoot + (e.dir + [e.name]);
        var relPath := RelPath(inputFile, c.inRoot).value;
        var outputFile := c.outRoot + relPath;
        var report := DownsampleImage(inputFile, outputFile, c.disk, DefaultScale);
        assert Dispatch(inputFile, outputFile, report) == DispatchFor(c, e);
        log := log + [Dispatch(inputFile, outputFile, report)];
        processed := processed + 1;
      }
      i := i + 1;
    }
    assert entries[..i] == entries;
    s := Summary(total, processed, log);
    ProcessMatchesSelection(c, entries);
  }

  /** The fold against the reference: `total` counts every entry, `processed`
      counts exactly the accepted ones, and the k-th call is the one for the
      k-th accepted entry. */
  lemma {:induction false} ProcessMatchesSelection(c: Setup, entries: seq<Entry>)
    ensures Process(c, entries).total == |entries|
    ensures Process(c, entries).processed == |Process(c, entries).log| == |Selected(entries)| <= |entries|
    ensures forall k :: 0 <= k < |Selected(entries)| ==>
              Process(c, entries).log[k] == DispatchFor(c, Selected(entries)[k])
    decreases |entries|
  {
    if |entries| > 0 {
      ProcessMatchesSelection(c, entries[..|entries| - 1]);
    }
  }

  /** Exactly the walked entries with accepted names are selected. */
  lemma {:induction false} SelectedMembers(entries: seq<Entry>, e: Entry)
    ensures e in Selected(entries) <==> e in entries && IsImageName(e.name)
    decreases |entries|
  {
    if |entries| > 0 {
      var init := entries[..|entries| - 1];
      SelectedMembers(init, e);
      SplitLast(entries);
    }
  }

  /** Selection keeps every accepted entry as often as it was walked, and no other. */
  lemma {:induction false} SelectedMultiset(entries: seq<Entry>, e: Entry)
    ensures multiset(Selected(entries))[e] == if IsImageName(e.name) then multiset(entries)[e] else 0
    decreases |entries|
  {
    if |entries| > 0 {
      var init := entries[..|entries| - 1];
      var last := entries[|entries| - 1];
      var keepLast, keepE := IsImageName(last.name), IsImageName(e.name);
      SelectedMultiset(init, e);
      SelectedLast(entries);
      CountStep(init, Selected(init), Selected(entries), last, e, keepLast, keepE);
    }
  }

  /** One unfolding of `Selected`: the last entry is kept exactly when it is accepted. */
  lemma SelectedLast(entries: seq<Entry>)
    requires |entries| > 0
    ensures entries == entries[..|entries| - 1] + [entries[|entries| - 1]]
    ensures IsImageName(entries[|entries| - 1].name) ==>
              Selected(entries) == Selected(entries[..|entries| - 1]) + [entries[|entries| - 1]]
    ensures !IsImageName(entries[|entries| - 1].name) ==>
              Selected(entries) == Selected(entries[..|entries| - 1])
  {
    SplitLast(entries);
  }

  /** A non-empty sequence is its front followed by its last element. */
  lemma SplitLast<T>(s: seq<T>)
    requires |s| > 0
    ensures s == s[..|s| - 1] + [s[|s| - 1]]
  {
  }

  /** Counting step of a filter: if `kept` holds e as often as `walked` does when e
      is kept, and never otherwise, appending one more walked element (to `kept`
      too, when it is kept) keeps that. */
  lemma CountStep<T>(walked: seq<T>, kept: seq<T>, kept': seq<T>, last: T, e: T, keepLast: bool, keepE: bool)
    requires last == e ==> keepLast == keepE
    requires multiset(kept)[e] == if keepE then multiset(walked)[e] else 0
    requires kept' == if keepLast then kept + [last] else kept
    ensures multiset(kept')[e] == if keepE then multiset(walked + [last])[e] else 0
  {
    assert multiset(walked + [last]) == multiset(walked) + multiset{last};
    if keepLast {
      assert multiset(kept + [last]) == multiset(kept) + multiset{last};
    }
  }

  /** Visiting order does not matter: any reordering of the walk gives the same
      counters and the same calls, each as often as before. */
  lemma WalkOrderIrrelevant(c: Setup, a: seq<Entry>, b: seq<Entry>)
    requires multiset(a) == multiset(b)
    ensures Process(c, a).total == Process(c, b).total
    ensures Process(c, a).processed == Process(c, b).processed
    ensures multiset(Process(c, a).log) == multiset(Process(c, b).log)
    ensures forall d :: d in Process(c, a).log <==> d in Process(c, b).log
  {
    ProcessMatchesSelection(c, a);
    ProcessMatchesSelection(c, b);
    assert |a| == |multiset(a)| == |multiset(b)| == |b|;
    LogPermutation(c, a, b);
    var la, lb := Process(c, a).log, Process(c, b).log;
    assert |la| == |multiset(la)| == |multiset(lb)| == |lb|;
    forall d
      ensures d in la <==> d in lb
    {
      assert d in la <==> d in multiset(la);
      assert d in lb <==> d in multiset(lb);
    }
  }

  /** The calls of a reordered walk are a reordering of the calls. */
  lemma {:induction false} LogPermutation(c: Setup, a: seq<Entry>, b: seq<Entry>)
    requires multiset(a) == multiset(b)
    ensures multiset(Process(c, a).log) == multiset(Process(c, b).log)
    decreases |a|
  {
    if |a| == 0 {
      assert |b| == |multiset(b)| == 0;
    } else {
      var init, e := a[..|a| - 1], a[|a| - 1];
      SplitLast(a);
      assert e in multiset(b);
      var j :| 0 <= j < |b| && b[j] == e;
      var b1, b2 := b[..j], b[j + 1..];
      assert b == b1 + [e] + b2;
      RemoveOne(init, e, b1, b2);
      LogPermutation(c, init, b1 + b2);
      ProcessAppend(c, init, [e]);
      LogOfInsert(c, b1, e, b2);
    }
  }

  /** Taking one e out of both sides of a multiset equation. */
  lemma RemoveOne<T>(a: seq<T>, e: T, b1: seq<T>, b2: seq<T>)
    requires multiset(a + [e]) == multiset(b1 + [e] + b2)
    ensures multiset(a) == multiset(b1 + b2)
  {
    var ma, mb := multiset(a), multiset(b1 + b2);
    assert multiset(a + [e]) == ma + multiset{e};
    assert multiset(b1 + [e] + b2) == mb + multiset{e};
    forall x
      ensures ma[x] == mb[x]
    {
      assert (ma + multiset{e})[x] == ma[x] + multiset{e}[x];
      assert (mb + multiset{e})[x] == mb[x] + multiset{e}[x];
    }
  }

  /** Inserting one entry into a walk adds its calls to the log, wherever it goes. */
  lemma LogOfInsert(c: Setup, b1: seq<Entry>, e: Entry, b2: seq<Entry>)
    ensures multiset(Process(c, b1 + [e] + b2).log)
            == multiset(Process(c, b1 + b2).log) + multiset(Process(c, [e]).log)
  {
    ProcessAppend(c, b1, [e]);
    ProcessAppend(c, b1 + [e], b2);
    ProcessAppend(c, b1, b2);
  }

  /** A call is in the log exactly when it is the call for some selected entry. */
  lemma LogMembers(c: Setup, entries: seq<Entry>, d: Dispatch)
    ensures d in Process(c, entries).log <==> exists e :: e in Selected(entries) && d == DispatchFor(c, e)
  {
    ProcessMatchesSelection(c, entries);
    var log, sel := Process(c, entries).log, Selected(entries);
    if d in log {
      var k :| 0 <= k < |log| && log[k] == d;
      assert sel[k] in sel;
    }
    if e :| e in sel && d == DispatchFor(c, e) {
      var k :| 0 <= k < |sel| && sel[k] == e;
      assert log[k] == d;
    }
  }

  /** A step taken after a prefix adds to the prefix's counters and log. */
  lemma StepAfter(c: Setup, p: Summary, q: Summary, e: Entry)
    ensures var r := Step(c, q, e);
      Step(c, Summary(p.total + q.total, p.processed + q.processed, p.log + q.log), e)
      == Summary(p.total + r.total, p.processed + r.processed, p.log + r.log)
  {
    var pq := Summary(p.total + q.total, p.processed + q.processed, p.log + q.log);
    if IsImageName(e.name) {
      var d := DispatchFor(c, e);
      assert Step(c, q, e) == Summary(q.total + 1, q.processed + 1, q.log + [d]);
      assert Step(c, pq, e) == Summary(pq.total + 1, pq.processed + 1, pq.log + [d]);
      assert p.log + q.log + [d] == p.log + (q.log + [d]);
    } else {
      assert Step(c, q, e) == Summary(q.total + 1, q.processed, q.log);
      assert Step(c, pq, e) == Summary(pq.total + 1, pq.processed, pq.log);
    }
  }

  /** A walk split in two is processed as its two parts one after the other:
      whatever the calls of the first part returned, the second part makes the
      same calls and adds the same counts. A failure reported by a call does not
      end the batch. */
  lemma {:induction false} ProcessAppend(c: Setup, a: seq<Entry>, b: seq<Entry>)
    ensures Process(c, a + b) == Summary(
              Process(c, a).total + Process(c, b).total,
              Process(c, a).processed + Process(c, b).processed,
              Process(c, a).log + Process(c, b).log)
    decreases |b|
  {
    if |b| == 0 {
      assert a + b == a;
    } else {
      var init, last := b[..|b| - 1], b[|b| - 1];
      assert (a + b)[..|a + b| - 1] == a + init;
      assert (a + b)[|a + b| - 1] == last;
      ProcessAppend(c, a, init);
      assert Process(c, a + b) == Step(c, Process(c, a + init), last);
      assert Process(c, b) == Step(c, Process(c, init), last);
      StepAfter(c, Process(c, a), Process(c, init), last);
    }
  }

  /** `processed` counts calls, not successes: the counters and the paths of
      every call are the same whatever the libraries do; only the outcomes differ. */
  lemma OutcomesDoNotChangeCounts(inRoot: Path, outRoot: Path, d1: Disk, d2: Disk, entries: seq<Entry>)
    ensures Process(Setup(inRoot, outRoot, d1), entries).total == Process(Setup(inRoot, outRoot, d2), entries).total
    ensures Process(Setup(inRoot, outRoot, d1), entries).processed == Process(Setup(inRoot, outRoot, d2), entries).processed
    ensures |Process(Setup(inRoot, outRoot, d1), entries).log| == |Process(Setup(inRoot, outRoot, d2), entries).log|
    ensures forall k :: 0 <= k < |Process(Setup(inRoot, outRoot, d1), entries).log| ==>
              Process(Setup(inRoot, outRoot, d1), entries).log[k].input == Process(Setup(inRoot, outRoot, d2), entries).log[k].input &&
              Process(Setup(inRoot, outRoot, d1), entries).log[k].output == Process(Setup(inRoot, outRoot, d2), entries).log[k].output
  {
    ProcessMatchesSelection(Setup(inRoot, outRoot, d1), entries);
    ProcessMatchesSelection(Setup(inRoot, outRoot, d2), entries);
  }

  /** If nothing can be decoded, every selected file is still dispatched and
      counted, and every call reports a decode error. */
  lemma AllFailuresStillCounted(inRoot: Path, outRoot: Path, entries: seq<Entry>)
    ensures var s := Process(Setup(inRoot, outRoot, Disk(map[], {})), entries);
      && s.processed == |Selected(entries)|
      && forall k :: 0 <= k < |s.log| ==> s.log[k].report.Failed? && s.log[k].report.cause == DecodeError
  {
    ProcessMatchesSelection(Setup(inRoot, outRoot, Disk(map[], {})), entries);
  }

  /** An entry is determined by its path below the input root. */
  lemma EntryPathInjective(e1: Entry, e2: Entry)
    ensures e1.dir + [e1.name] == e2.dir + [e2.name] ==> e1 == e2
  {
    var r1, r2 := e1.dir + [e1.name], e2.dir + [e2.name];
    if r1 == r2 {
      assert e1.name == r1[|r1| - 1] == r2[|r2| - 1] == e2.name;
      assert e1.dir == r1[..|r1| - 1] == r2[..|r2| - 1] == e2.dir;
    }
  }

  lemma InputFileInjective(c: Setup, e1: Entry, e2: Entry)
    requires InputFile(c, e1) == InputFile(c, e2)
    ensures e1 == e2
  {
    OutputMirrorsInput(c, e1);
    OutputMirrorsInput(c, e2);
    EntryPathInjective(e1, e2);
  }

  /** The output path is the output root joined with the file's path below the
      input root: the output tree mirrors the input tree. */
  lemma OutputMirrorsInput(c: Setup, e: Entry)
    ensures OutputFile(c, e) == c.outRoot + e.dir + [e.name]
    ensures RelPath(OutputFile(c, e), c.outRoot) == RelPath(InputFile(c, e), c.inRoot) == Some(e.dir + [e.name])
    ensures DirName(OutputFile(c, e)) == c.outRoot + e.dir
  {
    RelPathOfJoin(c.inRoot, e.dir + [e.name]);
    RelPathOfJoin(c.outRoot, e.dir + [e.name]);
    assert c.inRoot + e.dir + [e.name] == c.inRoot + (e.dir + [e.name]);
    assert c.outRoot + e.dir + [e.name] == c.outRoot + (e.dir + [e.name]);
  }

  /** Distinct files get distinct output paths, as component paths and as strings. */
  lemma OutputFileInjective(c: Setup, e1: Entry, e2: Entry)
    requires e1 != e2
    ensures OutputFile(c, e1) != OutputFile(c, e2)
    ensures Render(OutputFile(c, e1)) != Render(OutputFile(c, e2))
  {
    OutputMirrorsInput(c, e1);
    OutputMirrorsInput(c, e2);
    EntryPathInjective(e1, e2);
    if Render(OutputFile(c, e1)) == Render(OutputFile(c, e2)) {
      RenderInjective(OutputFile(c, e1), OutputFile(c, e2));
    }
  }

  /** A file leads to a call, and to an output path, exactly when it was walked
      and its name is accepted. Other files are counted and nothing more. */
  lemma DispatchedIffSelected(c: Setup, entries: seq<Entry>, e: Entry)
    ensures (exists k :: 0 <= k < |Process(c, entries).log| && Process(c, entries).log[k].input == InputFile(c, e))
            <==> e in entries && IsImageName(e.name)
    ensures (exists k :: 0 <= k < |Process(c, entries).log| && Process(c, entries).log[k].output == OutputFile(c, e))
            <==> e in entries && IsImageName(e.name)
  {
    ProcessMatchesSelection(c, entries);
    SelectedMembers(entries, e);
    var log, sel := Process(c, entries).log, Selected(entries);
    if k :| 0 <= k < |log| && log[k].input == InputFile(c, e) {
      InputFileInjective(c, sel[k], e);
    }
    if k :| 0 <= k < |log| && log[k].output == OutputFile(c, e) {
      if sel[k] != e {
        OutputFileInjective(c, sel[k], e);
      }
    }
    if e in sel {
      var k :| 0 <= k < |sel| && sel[k] == e;
      assert log[k].input == InputFile(c, e) && log[k].output == OutputFile(c, e);
    }
  }

  /** Selection keeps a walk free of repeats. */
  lemma {:induction false} SelectedDistinct(entries: seq<Entry>)
    requires Distinct(entries)
    ensures Distinct(Selected(entries))
    decreases |entries|
  {
    if |entries| > 0 {
      var init := entries[..|entries| - 1];
      var e := entries[|entries| - 1];
      assert Distinct(init);
      SelectedDistinct(init);
      SelectedMembers(init, e);
      assert e !in init;
    }
  }

  /** Since the walk reports every file once, no two calls write to the same
      output path, and the log's k-th output mirrors its k-th input. */
  lemma OutputsDistinct(c: Setup, entries: seq<Entry>)
    requires Distinct(entries)
    ensures forall i, j :: 0 <= i < j < |Process(c, entries).log| ==>
              Render(Process(c, entries).log[i].output) != Render(Process(c, entries).log[j].output)
    ensures forall k :: 0 <= k < |Process(c, entries).log| ==>
              RelPath(Process(c, entries).log[k].output, c.outRoot) == RelPath(Process(c, entries).log[k].input, c.inRoot) != None
  {
    ProcessMatchesSelection(c, entries);
    SelectedDistinct(entries);
    var log, sel := Process(c, entries).log, Selected(entries);
    forall i, j | 0 <= i < j < |log|
      ensures Render(log[i].output) != Render(log[j].output)
    {
      OutputFileInjective(c, sel[i], sel[j]);
    }
    forall k | 0 <= k < |log|
      ensures RelPath(log[k].output, c.outRoot) == RelPath(log[k].input, c.inRoot) != None
    {
      OutputMirrorsInput(c, sel[k]);
    }
  }

  /** A two-file walk whose first name is accepted and second is not. */
  lemma ProcessTwo(c: Setup, e0: Entry, e1: Entry)
    requires IsImageName(e0.name) && !IsImageName(e1.name)
    ensures Process(c, [e0, e1]) == Summary(2, 1, [DispatchFor(c, e0)])
  {
    var entries := [e0, e1];
    assert entries[..1][..0] == [];
    assert entries[..1] == [e0];
    assert Process(c, [e0]) == Step(c, Process(c, []), e0);
    assert Process(c, entries) == Step(c, Process(c, [e0]), e1);
  }

  /** A two-file tree: "a/photo.jpg" (800x600) and
      "b/notes.txt", with any accepted and any rejected name in their places
      (`CaseExamples` and `RejectedExamples` show that these two names are):
      two files found, one processed, and one call, which writes a 200x150
      picture to the mirrored path. */
  lemma ScenarioTwoFiles(a: Name, b: Name, photo: Name, notes: Name, inRoot: Path, outRoot: Path)
    requires IsImageName(photo) && !IsImageName(notes)
    ensures var c := Setup(inRoot, outRoot, Disk(map[inRoot + [a, photo] := Size(800, 600)], {}));
      var s := Process(c, [Entry([a], photo), Entry([b], notes)]);
      && s.total == 2
      && s.processed == 1
      && s.log == [Dispatch(inRoot + [a, photo], outRoot + [a, photo], Saved(outRoot + [a, photo], Size(200, 150)))]
  {
    var c := Setup(inRoot, outRoot, Disk(map[inRoot + [a, photo] := Size(800, 600)], {}));
    var e0, e1 := Entry([a], photo), Entry([b], notes);
    ProcessTwo(c, e0, e1);
    OutputMirrorsInput(c, e0);
    assert InputFile(c, e0) == inRoot + [a, photo];
    DefaultScaleExamples();
  }
}
