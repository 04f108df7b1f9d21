/** `split_text_into_sections` of embed.py: cut the text into paragraphs on
    "\n\n", then pack consecutive paragraphs greedily into sections whose
    running buffer stays under `chunk_size`. */
module Chunker {
  import opened PyStr

  /** The paragraph separator: the text is cut on it and it is appended after
      every paragraph in the running buffer. */
  const ParaSep: Str := "\n\n"

  lemma ParaSepFacts()
    ensures |ParaSep| == 2 && AllSpace(ParaSep)
  {
  }

  function Paragraphs(text: Str): seq<Str> {
    Split(text, ParaSep)
  }

  /** The buffer `current_chunk` once `p + "\n\n"` has been appended for every
      paragraph `p` of the run, in order. */
  function Buffer(run: seq<Str>): Str {
    if run == [] then [] else Buffer(run[..|run| - 1]) + run[|run| - 1] + ParaSep
  }

  /** A non-empty run's buffer is the run joined with "\n\n", plus a
      trailing "\n\n"; it is empty only for the empty run. */
  lemma {:induction false} BufferIsJoin(run: seq<Str>)
    ensures run == [] <==> Buffer(run) == []
    ensures run != [] ==> Buffer(run) == Join(run, ParaSep) + ParaSep
    decreases |run|
  {
    if run != [] {
      var init := run[..|run| - 1];
      var p := run[|run| - 1];
      assert run == init + [p];
      if init != [] {
        BufferIsJoin(init);
        JoinAppend(init, [p], ParaSep);
      }
    }
  }

  lemma ShortPieceSepFree(t: Str)
    requires |t| == 2 && t != ParaSep
    ensures SepFree(t, ParaSep)
  {
    forall j ensures !OccursAt(t, ParaSep, j) {
      assert t[0..2] == t;
    }
  }

  /** The split scans left to right without overlap: "a\n\n\nb" gives
      "a" and "\nb", not "a\n" and "b". */
  lemma ThreeNewlinesSplit()
    ensures Paragraphs("a\n\n\nb") == ["a", "\nb"]
  {
    var pieces: seq<Str> := ["a", "\nb"];
    assert Join(pieces, ParaSep) == "a\n\n\nb";
    assert "a" + ParaSep[..1] == "a\n";
    ShortPieceSepFree("a\n");
    ShortPieceSepFree("\nb");
    SplitUnique("a\n\n\nb", ParaSep, pieces);
  }

  /** One iteration of the loop, on runs of paragraphs: `p` joins the open
      (last) run when the open buffer's length plus its own is under `c`;
      otherwise it opens a new run. With no run open the buffer is empty,
      and both branches of the loop open the first run with `p`. */
  function Place(runs: seq<seq<Str>>, p: Str, c: int): seq<seq<Str>> {
    if runs != [] && |Buffer(runs[|runs| - 1])| + |p| < c then
      runs[..|runs| - 1] + [runs[|runs| - 1] + [p]]
    else
      runs + [[p]]
  }

  /** The runs of paragraphs the loop groups into sections, computed on the
      prefix of paragraphs seen so far. */
  function Pack(ps: seq<Str>, c: int): (runs: seq<seq<Str>>)
    ensures |runs| <= |ps|
    ensures |runs| == 0 <==> |ps| == 0
    ensures forall k :: 0 <= k < |runs| ==> |runs[k]| > 0
    decreases |ps|
  {
    if ps == [] then [] else Place(Pack(ps[..|ps| - 1], c), ps[|ps| - 1], c)
  }

  /** The runs laid end to end. */
  function Flatten(runs: seq<seq<Str>>): seq<Str> {
    if runs == [] then [] else Flatten(runs[..|runs| - 1]) + runs[|runs| - 1]
  }

  /** Every paragraph after the first in `run` passed the size test
      against the buffer holding the paragraphs before it. */
  ghost predicate Admits(run: seq<Str>, c: int) {
    forall j :: 1 <= j < |run| ==> |Buffer(run[..j])| + |run[j]| < c
  }

  /** Each run is non-empty and admits its paragraphs. */
  ghost predicate AllAdmit(runs: seq<seq<Str>>, c: int) {
    forall k :: 0 <= k < |runs| ==> |runs[k]| > 0 && Admits(runs[k], c)
  }

  /** Each run after the first begins with a paragraph the previous run's
      buffer refused. */
  ghost predicate Refused(runs: seq<seq<Str>>, c: int) {
    forall k :: 1 <= k < |runs| && runs[k] != [] ==> |Buffer(runs[k - 1])| + |runs[k][0]| >= c
  }

  /** A greedy partition of `ps`: non-empty runs that lay end to end give
      back `ps`, each admitting its own paragraphs and each after the first
      opened by a paragraph its predecessor refused. */
  ghost predicate Greedy(ps: seq<Str>, c: int, runs: seq<seq<Str>>) {
    Flatten(runs) == ps && AllAdmit(runs, c) && Refused(runs, c)
  }

  lemma AdmitsExtend(run: seq<Str>, p: Str, c: int)
    requires Admits(run, c) && |run| > 0 && |Buffer(run)| + |p| < c
    ensures Admits(run + [p], c)
  {
    var run' := run + [p];
    forall j | 1 <= j < |run'| ensures |Buffer(run'[..j])| + |run'[j]| < c {
      if j < |run| {
        assert run'[..j] == run[..j];
        assert run'[j] == run[j];
      } else {
        assert run'[..j] == run;
      }
    }
  }

  lemma AdmitsShrink(run: seq<Str>, c: int)
    requires Admits(run, c) && |run| >= 2
    ensures Admits(run[..|run| - 1], c)
    ensures |Buffer(run[..|run| - 1])| + |run[|run| - 1]| < c
  {
    var short := run[..|run| - 1];
    forall j | 1 <= j < |short| ensures |Buffer(short[..j])| + |short[j]| < c {
      assert short[..j] == run[..j];
    }
  }

  lemma FlattenSnoc(init: seq<seq<Str>>, r: seq<Str>)
    ensures Flatten(init + [r]) == Flatten(init) + r
  {
    assert (init + [r])[..|init|] == init;
  }

  lemma AllAdmitSnoc(runs: seq<seq<Str>>, r: seq<Str>, c: int)
    requires AllAdmit(runs, c) && |r| > 0 && Admits(r, c)
    ensures AllAdmit(runs + [r], c)
  {
    var runs' := runs + [r];
    forall k | 0 <= k < |runs'| ensures |runs'[k]| > 0 && Admits(runs'[k], c) {
      if k < |runs| { assert runs'[k] == runs[k]; }
    }
  }

  lemma AllAdmitInit(runs: seq<seq<Str>>, c: int)
    requires AllAdmit(runs, c) && runs != []
    ensures AllAdmit(runs[..|runs| - 1], c)
    ensures |runs[|runs| - 1]| > 0 && Admits(runs[|runs| - 1], c)
  {
    var init := runs[..|runs| - 1];
    forall k | 0 <= k < |init| ensures |init[k]| > 0 && Admits(init[k], c) {
      assert init[k] == runs[k];
    }
  }

  lemma RefusedSnoc(runs: seq<seq<Str>>, r: seq<Str>, c: int)
    requires Refused(runs, c)
    requires runs != [] && r != [] ==> |Buffer(runs[|runs| - 1])| + |r[0]| >= c
    ensures Refused(runs + [r], c)
  {
    var runs' := runs + [r];
    forall k | 1 <= k < |runs'| && runs'[k] != [] ensures |Buffer(runs'[k - 1])| + |runs'[k][0]| >= c {
      assert runs'[k - 1] == runs[k - 1];
      if k < |runs| { assert runs'[k] == runs[k]; }
    }
  }

  lemma RefusedInit(runs: seq<seq<Str>>, c: int)
    requires Refused(runs, c) && runs != []
    ensures Refused(runs[..|runs| - 1], c)
    ensures |runs| >= 2 && runs[|runs| - 1] != [] ==>
      |Buffer(runs[|runs| - 2])| + |runs[|runs| - 1][0]| >= c
  {
    var init := runs[..|runs| - 1];
    forall k | 1 <= k < |init| && init[k] != [] ensures |Buffer(init[k - 1])| + |init[k][0]| >= c {
      assert init[k - 1] == runs[k - 1] && init[k] == runs[k];
    }
  }

  /** Growing the open run by a paragraph it admits keeps the partition greedy. */
  lemma GreedyJoin(ps: seq<Str>, c: int, init: seq<seq<Str>>, last: seq<Str>, p: Str)
    requires Greedy(ps, c, init + [last])
    requires |Buffer(last)| + |p| < c
    ensures Greedy(ps + [p], c, init + [last + [p]])
  {
    var prev := init + [last];
    assert prev[..|prev| - 1] == init && prev[|prev| - 1] == last;
    AllAdmitInit(prev, c);
    RefusedInit(prev, c);
    AdmitsExtend(last, p, c);
    AllAdmitSnoc(init, last + [p], c);
    assert (last + [p])[0] == last[0];
    RefusedSnoc(init, last + [p], c);
    FlattenSnoc(init, last);
    FlattenSnoc(init, last + [p]);
  }

  /** Opening a new run with a paragraph the open run refused keeps the
      partition greedy. */
  lemma GreedyOpen(ps: seq<Str>, c: int, prev: seq<seq<Str>>, p: Str)
    requires Greedy(ps, c, prev)
    requires prev != [] ==> |Buffer(prev[|prev| - 1])| + |p| >= c
    ensures Greedy(ps + [p], c, prev + [[p]])
  {
    AllAdmitSnoc(prev, [p], c);
    RefusedSnoc(prev, [p], c);
    FlattenSnoc(prev, [p]);
  }

  /** The packing is a greedy partition of the paragraphs. */
  lemma {:induction false} PackIsGreedy(ps: seq<Str>, c: int)
    ensures Greedy(ps, c, Pack(ps, c))
    decreases |ps|
  {
    if ps != [] {
      var ps' := ps[..|ps| - 1];
      var p := ps[|ps| - 1];
      var prev := Pack(ps', c);
      PackIsGreedy(ps', c);
      assert ps == ps' + [p];
      if prev != [] && |Buffer(prev[|prev| - 1])| + |p| < c {
        var init := prev[..|prev| - 1];
        assert prev == init + [prev[|prev| - 1]];
        GreedyJoin(ps', c, init, prev[|prev| - 1], p);
      } else {
        GreedyOpen(ps', c, prev, p);
      }
    }
  }

  /** Dropping the last run of a greedy partition leaves a greedy partition
      of the paragraphs before it. */
  lemma GreedyDropRun(ps: seq<Str>, c: int, runs: seq<seq<Str>>)
    requires Greedy(ps, c, runs) && runs != []
    ensures Greedy(Flatten(runs[..|runs| - 1]), c, runs[..|runs| - 1])
    ensures |runs| >= 2 && runs[|runs| - 1] != [] ==>
      |Buffer(runs[|runs| - 2])| + |runs[|runs| - 1][0]| >= c
  {
    AllAdmitInit(runs, c);
    RefusedInit(runs, c);
  }

  /** Dropping the last paragraph of a greedy partition whose last run holds
      two or more leaves a greedy partition. */
  lemma GreedyDropParagraph(ps: seq<Str>, c: int, init: seq<seq<Str>>, last: seq<Str>)
    requires Greedy(ps, c, init + [last]) && |last| >= 2
    ensures Greedy(Flatten(init) + last[..|last| - 1], c, init + [last[..|last| - 1]])
    ensures |Buffer(last[..|last| - 1])| + |last[|last| - 1]| < c
  {
    var runs := init + [last];
    var short := last[..|last| - 1];
    assert runs[..|runs| - 1] == init && runs[|runs| - 1] == last;
    AllAdmitInit(runs, c);
    RefusedInit(runs, c);
    AdmitsShrink(last, c);
    AllAdmitSnoc(init, short, c);
    assert short[0] == last[0];
    RefusedSnoc(init, short, c);
    FlattenSnoc(init, short);
  }

  /** A greedy partition whose last run is the single paragraph `p`: `p`
      was refused by the run before it. */
  lemma GreedyLastAlone(ps: seq<Str>, c: int, init: seq<seq<Str>>, p: Str)
    requires Greedy(ps, c, init + [[p]])
    ensures Greedy(Flatten(init), c, init) && ps == Flatten(init) + [p]
    ensures init + [[p]] == Place(init, p, c)
  {
    var runs := init + [[p]];
    assert runs[..|runs| - 1] == init && runs[|runs| - 1] == [p];
    FlattenSnoc(init, [p]);
    GreedyDropRun(ps, c, runs);
    if init != [] {
      assert init[|init| - 1] == runs[|runs| - 2];
    }
  }

  /** A greedy partition whose last run holds `p` after at least one other
      paragraph: `p` was admitted by the run's earlier paragraphs. */
  lemma GreedyLastJoined(ps: seq<Str>, c: int, init: seq<seq<Str>>, short: seq<Str>, p: Str)
    requires Greedy(ps, c, init + [short + [p]]) && short != []
    ensures Greedy(Flatten(init) + short, c, init + [short]) && ps == Flatten(init) + short + [p]
    ensures init + [short + [p]] == Place(init + [short], p, c)
  {
    var last := short + [p];
    assert last[..|last| - 1] == short && last[|last| - 1] == p;
    FlattenSnoc(init, last);
    GreedyDropParagraph(ps, c, init, last);
    var prev := init + [short];
    assert prev[..|prev| - 1] == init && prev[|prev| - 1] == short;
  }

  /** A non-empty greedy partition is one step of the packing from a greedy
      partition of all paragraphs but the last. */
  lemma GreedyLast(ps: seq<Str>, c: int, runs: seq<seq<Str>>)
    returns (ps': seq<Str>, prev: seq<seq<Str>>, p: Str)
    requires Greedy(ps, c, runs) && runs != []
    ensures Greedy(ps', c, prev) && ps == ps' + [p] && runs == Place(prev, p, c)
  {
    var last := runs[|runs| - 1];
    var init := runs[..|runs| - 1];
    assert runs == init + [last];
    AllAdmitInit(runs, c);
    p := last[|last| - 1];
    var short := last[..|last| - 1];
    assert last == short + [p];
    if short == [] {
      GreedyLastAlone(ps, c, init, p);
      ps', prev := Flatten(init), init;
    } else {
      GreedyLastJoined(ps, c, init, short, p);
      ps', prev := Flatten(init) + short, init + [short];
    }
  }

  /** The packing is the only greedy partition: a new section begins exactly
      when the open buffer's length plus the next paragraph's reaches `c`. */
  lemma {:induction false} GreedyIsPack(ps: seq<Str>, c: int, runs: seq<seq<Str>>)
    requires Greedy(ps, c, runs)
    ensures runs == Pack(ps, c)
    decreases |ps|
  {
    if runs != [] {
      var ps', prev, p := GreedyLast(ps, c, runs);
      GreedyIsPack(ps', c, prev);
      PackSnoc(ps', p, c);
    }
  }

  /** The sections the runs become: each run's buffer, stripped, in order. */
  function SectionsOf(runs: seq<seq<Str>>): seq<Str> {
    seq(|runs|, k requires 0 <= k < |runs| => Strip(Buffer(runs[k])))
  }

  lemma SectionsOfSnoc(runs: seq<seq<Str>>)
    requires runs != []
    ensures SectionsOf(runs) == SectionsOf(runs[..|runs| - 1]) + [Strip(Buffer(runs[|runs| - 1]))]
  {
    var init := runs[..|runs| - 1];
    var lhs := SectionsOf(runs);
    var rhs := SectionsOf(init) + [Strip(Buffer(runs[|runs| - 1]))];
    forall k | 0 <= k < |runs| ensures lhs[k] == rhs[k] {
      if k < |init| { assert init[k] == runs[k]; }
    }
  }

  /** What `split_text_into_sections(text, c)` returns. */
  function Sections(text: Str, c: int): seq<Str> {
    SectionsOf(Pack(Paragraphs(text), c))
  }

  /** One step of the packing: the runs for one more paragraph. */
  lemma PackSnoc(ps: seq<Str>, p: Str, c: int)
    ensures Pack(ps + [p], c) == Place(Pack(ps, c), p, c)
  {
    assert (ps + [p])[..|ps|] == ps;
  }

  lemma BufferSnoc(run: seq<Str>, p: Str)
    ensures Buffer(run + [p]) == Buffer(run) + p + ParaSep
  {
    assert (run + [p])[..|run|] == run;
  }

  /** `chunk` is the buffer of the open (last, non-empty) run and `secs`
      holds the sections of the runs before it. */
  ghost predicate Tracks(runs: seq<seq<Str>>, chunk: Str, secs: seq<Str>) {
    && (runs == [] ==> chunk == [] && secs == [])
    && (runs != [] ==> runs[|runs| - 1] != [] && chunk == Buffer(runs[|runs| - 1])
                       && secs == SectionsOf(runs[..|runs| - 1]))
  }

  lemma TracksGrow(runs: seq<seq<Str>>, p: Str, chunk: Str, secs: seq<Str>)
    requires Tracks(runs, chunk, secs) && runs != []
    ensures Tracks(runs[..|runs| - 1] + [runs[|runs| - 1] + [p]], chunk + p + ParaSep, secs)
  {
    var last := runs[|runs| - 1];
    var next := runs[..|runs| - 1] + [last + [p]];
    assert next[..|next| - 1] == runs[..|runs| - 1];
    BufferSnoc(last, p);
  }

  lemma TracksOpen(runs: seq<seq<Str>>, p: Str, chunk: Str, secs: seq<Str>)
    requires Tracks(runs, chunk, secs)
    ensures Tracks(runs + [[p]], p + ParaSep, if chunk != [] then secs + [Strip(chunk)] else secs)
  {
    var next := runs + [[p]];
    assert next[..|next| - 1] == runs;
    assert next[|next| - 1] == [p];
    assert Buffer([p]) == p + ParaSep by {
      BufferSnoc([], p);
      assert [] + [p] == [p];
    }
    if runs != [] {
      BufferIsJoin(runs[|runs| - 1]);
      SectionsOfSnoc(runs);
      assert secs + [Strip(chunk)] == SectionsOf(runs);
    }
  }

  /** A paragraph that passes the size test is appended to the open buffer
      with "\n\n"; the buffer and sections still track the runs. */
  lemma JoinStep(runs: seq<seq<Str>>, p: Str, c: int, chunk: Str, secs: seq<Str>)
    requires Tracks(runs, chunk, secs) && |chunk| + |p| < c
    ensures Tracks(Place(runs, p, c), chunk + p + ParaSep, secs)
  {
    if runs == [] {
      TracksOpen(runs, p, chunk, secs);
      assert [] + p + ParaSep == p + ParaSep;
    } else {
      TracksGrow(runs, p, chunk, secs);
    }
  }

  /** A paragraph that fails the size test closes the open buffer, if any,
      into a stripped section and opens a new buffer with itself. */
  lemma OpenStep(runs: seq<seq<Str>>, p: Str, c: int, chunk: Str, secs: seq<Str>)
    requires Tracks(runs, chunk, secs) && |chunk| + |p| >= c
    ensures Tracks(Place(runs, p, c), p + ParaSep, if chunk != [] then secs + [Strip(chunk)] else secs)
  {
    TracksOpen(runs, p, chunk, secs);
  }

  /** Packing one more paragraph of `ps`. */
  lemma PackPrefix(ps: seq<Str>, i: nat, c: int)
    requires i < |ps|
    ensures Pack(ps[..i + 1], c) == Place(Pack(ps[..i], c), ps[i], c)
  {
    assert ps[..i + 1] == ps[..i] + [ps[i]];
    PackSnoc(ps[..i], ps[i], c);
  }

  /** After the last paragraph the open buffer is non-empty, so the final
      append always happens, and it completes the sections of every run. */
  lemma FinalStep(text: Str, c: int, runs: seq<seq<Str>>, chunk: Str, secs: seq<Str>)
    requires runs == Pack(Paragraphs(text), c) && Tracks(runs, chunk, secs)
    ensures chunk != [] && secs + [Strip(chunk)] == Sections(text, c)
    ensures |secs| + 1 <= |Paragraphs(text)|
  {
    BufferIsJoin(runs[|runs| - 1]);
    SectionsOfSnoc(runs);
  }

  /** The paragraph split plus greedy packing loop. */
  method SplitTextIntoSections(text: Str, chunkSize: int) returns (sections: seq<Str>)
    ensures sections == Sections(text, chunkSize)
    ensures 1 <= |sections| <= |Paragraphs(text)|
  {
    var paragraphs := Split(text, ParaSep);
    sections := [];
    var currentChunk: Str := [];
    ghost var runs: seq<seq<Str>> := [];
    for i := 0 to |paragraphs|
      invariant runs == Pack(paragraphs[..i], chunkSize)
      invariant Tracks(runs, currentChunk, sections)
    {
      var p := paragraphs[i];
      PackPrefix(paragraphs, i, chunkSize);
      if |currentChunk| + |p| < chunkSize {
        JoinStep(runs, p, chunkSize, currentChunk, sections);
        currentChunk := currentChunk + p + ParaSep;
      } else {
        OpenStep(runs, p, chunkSize, currentChunk, sections);
        if currentChunk != [] {
          sections := sections + [Strip(currentChunk)];
        }
        currentChunk := p + ParaSep;
      }
      runs := Place(runs, p, chunkSize);
    }
    assert paragraphs[..|paragraphs|] == paragraphs;
    FinalStep(text, chunkSize, runs, currentChunk, sections);
    if currentChunk != [] {
      sections := sections + [Strip(currentChunk)];
    }
  }

  /** Each section is its run of paragraphs joined with "\n\n", stripped:
      the trailing separator in the buffer is whitespace that strip removes. */
  lemma SectionIsStrippedRun(run: seq<Str>)
    requires run != []
    ensures Strip(Buffer(run)) == Strip(Join(run, ParaSep))
  {
    BufferIsJoin(run);
    ParaSepFacts();
    StripTrailingSpace(Join(run, ParaSep), ParaSep);
  }

  /** There is one section per run, and section k is run k joined with
      "\n\n" and stripped. */
  lemma SectionsAreStrippedRuns(text: Str, c: int)
    ensures var runs := Pack(Paragraphs(text), c);
      && |Sections(text, c)| == |runs|
      && forall k :: 0 <= k < |runs| ==> Sections(text, c)[k] == Strip(Join(runs[k], ParaSep))
  {
    var runs := Pack(Paragraphs(text), c);
    forall k | 0 <= k < |runs| ensures Sections(text, c)[k] == Strip(Join(runs[k], ParaSep)) {
      SectionIsStrippedRun(runs[k]);
    }
  }

  /** The text of each run: its paragraphs joined with "\n\n". */
  function RunTexts(runs: seq<seq<Str>>): seq<Str> {
    seq(|runs|, k requires 0 <= k < |runs| => Join(runs[k], ParaSep))
  }

  lemma {:induction false} JoinFlatten(runs: seq<seq<Str>>)
    requires forall k :: 0 <= k < |runs| ==> |runs[k]| > 0
    ensures Join(Flatten(runs), ParaSep) == Join(RunTexts(runs), ParaSep)
    decreases |runs|
  {
    if runs != [] {
      var init := runs[..|runs| - 1];
      var last := runs[|runs| - 1];
      assert forall k :: 0 <= k < |init| ==> init[k] == runs[k];
      JoinFlatten(init);
      assert RunTexts(runs) == RunTexts(init) + [Join(last, ParaSep)];
      if init == [] {
        assert Flatten(runs) == last;
      } else {
        assert |Flatten(init)| >= |init[|init| - 1]| > 0;
        JoinAppend(Flatten(init), last, ParaSep);
        JoinAppend(RunTexts(init), [Join(last, ParaSep)], ParaSep);
      }
    }
  }

  /** The run texts joined with "\n\n" give back the whole text; with
      SectionsAreStrippedRuns, the sections rebuild the text up to the
      whitespace strip removes at each run's two ends. */
  lemma SectionsReconstructText(text: Str, c: int)
    ensures Join(RunTexts(Pack(Paragraphs(text), c)), ParaSep) == text
  {
    var ps := Paragraphs(text);
    PackIsGreedy(ps, c);
    JoinFlatten(Pack(ps, c));
    SplitJoin(text, ParaSep);
  }

  /** A run of two or more paragraphs strips to fewer than `c` characters:
      its last paragraph passed the strict size test, and strip removes at
      least the trailing "\n\n". */
  lemma RunSizeBound(run: seq<Str>, c: int)
    requires Admits(run, c) && |run| >= 2
    ensures |Strip(Buffer(run))| < c
  {
    var short := run[..|run| - 1];
    var p := run[|run| - 1];
    AdmitsShrink(run, c);
    assert run == short + [p];
    BufferSnoc(short, p);
    ParaSepFacts();
    StripTrailingSpace(Buffer(short) + p, ParaSep);
  }

  /** Only a section made of a single paragraph can reach `chunk_size`. */
  lemma SectionSizeBound(text: Str, c: int)
    ensures var runs := Pack(Paragraphs(text), c);
      && |Sections(text, c)| == |runs|
      && (forall k :: 0 <= k < |runs| && |runs[k]| >= 2 ==> |Sections(text, c)[k]| < c)
      && forall k :: 0 <= k < |runs| && |Sections(text, c)[k]| >= c ==>
           |runs[k]| == 1 && |runs[k][0]| >= c
  {
    var runs := Pack(Paragraphs(text), c);
    PackIsGreedy(Paragraphs(text), c);
    SectionsAreStrippedRuns(text, c);
    forall k | 0 <= k < |runs| && |runs[k]| >= 2 ensures |Sections(text, c)[k]| < c {
      RunSizeBound(runs[k], c);
    }
    forall k | 0 <= k < |runs| && |Sections(text, c)[k]| >= c
      ensures |runs[k]| == 1 && |runs[k][0]| >= c
    {
      if |runs[k]| < 2 {
        assert Join(runs[k], ParaSep) == runs[k][0];
      }
    }
  }

  /** When no paragraph plus the "\n\n" every open buffer ends with stays
      under `c`, no paragraph joins a run: each run is one paragraph. */
  lemma {:induction false} PackSingletons(ps: seq<Str>, c: int)
    requires forall k :: 0 <= k < |ps| ==> |ps[k]| + |ParaSep| >= c
    ensures Pack(ps, c) == seq(|ps|, k requires 0 <= k < |ps| => [ps[k]])
    decreases |ps|
  {
    if ps != [] {
      var ps' := ps[..|ps| - 1];
      var p := ps[|ps| - 1];
      forall k | 0 <= k < |ps'| ensures |ps'[k]| + |ParaSep| >= c {
        assert ps'[k] == ps[k];
      }
      PackSingletons(ps', c);
      var prev := Pack(ps', c);
      if prev != [] {
        BufferIsJoin(prev[|prev| - 1]);
        assert |Buffer(prev[|prev| - 1])| >= |ParaSep|;
      }
      assert Pack(ps, c) == prev + [[p]];
    }
  }

  /** With `chunk_size <= 0` no paragraph passes the size test, so every
      paragraph becomes its own stripped section. */
  lemma NonPositiveChunkSize(text: Str, c: int)
    requires c <= 0
    ensures var ps := Paragraphs(text);
      Sections(text, c) == seq(|ps|, k requires 0 <= k < |ps| => Strip(ps[k]))
  {
    var ps := Paragraphs(text);
    var runs := Pack(ps, c);
    PackSingletons(ps, c);
    forall k | 0 <= k < |ps| ensures Sections(text, c)[k] == Strip(ps[k]) {
      SectionIsStrippedRun([ps[k]]);
    }
  }

  lemma {:induction false} PackAllFits(ps: seq<Str>, c: int)
    requires ps != [] && |Join(ps, ParaSep)| < c
    ensures Pack(ps, c) == [ps]
    decreases |ps|
  {
    var ps' := ps[..|ps| - 1];
    var p := ps[|ps| - 1];
    assert ps == ps' + [p];
    if ps' != [] {
      JoinAppend(ps', [p], ParaSep);
      PackAllFits(ps', c);
      BufferIsJoin(ps');
    }
  }

  /** Text shorter than `chunk_size` comes back as one section: the text,
      stripped. */
  lemma ShortTextOneSection(text: Str, c: int)
    requires |text| < c
    ensures Sections(text, c) == [Strip(text)]
  {
    var ps := Paragraphs(text);
    SplitJoin(text, ParaSep);
    PackAllFits(ps, c);
    SectionIsStrippedRun(ps);
  }

  lemma AllSpaceParts(a: Str, b: Str)
    requires AllSpace(a + b)
    ensures AllSpace(a) && AllSpace(b)
  {
    assert forall k :: 0 <= k < |a| ==> a[k] == (a + b)[k];
    assert forall k :: 0 <= k < |b| ==> b[k] == (a + b)[|a| + k];
  }

  lemma {:induction false} JoinAllSpace(pieces: seq<Str>, sep: Str)
    requires AllSpace(Join(pieces, sep))
    ensures forall k :: 0 <= k < |pieces| ==> AllSpace(pieces[k])
    decreases |pieces|
  {
    if |pieces| >= 2 {
      AllSpaceParts(pieces[0] + sep, Join(pieces[1..], sep));
      AllSpaceParts(pieces[0], sep);
      JoinAllSpace(pieces[1..], sep);
      assert forall k :: 1 <= k < |pieces| ==> pieces[k] == pieces[1..][k - 1];
    }
  }

  /** Whitespace-only text yields only empty sections. */
  lemma BlankTextEmptySections(text: Str, c: int)
    requires AllSpace(text)
    ensures forall k :: 0 <= k < |Sections(text, c)| ==> Sections(text, c)[k] == []
  {
    var runs := Pack(Paragraphs(text), c);
    SectionsReconstructText(text, c);
    SectionsAreStrippedRuns(text, c);
    JoinAllSpace(RunTexts(runs), ParaSep);
    forall k | 0 <= k < |runs| ensures Sections(text, c)[k] == [] {
      assert AllSpace(RunTexts(runs)[k]);
    }
  }

  lemma FourNewlinesParagraphs()
    ensures Paragraphs("\n\n\n\n") == [[], [], []]
  {
    var e: Str := [];
    var ps: seq<Str> := [e, e, e];
    assert ps[1..] == [e, e] && [e, e][1..] == [e];
    assert Join([e, e], ParaSep) == ParaSep;
    assert Join(ps, ParaSep) == "\n\n\n\n";
    assert e + ParaSep[..1] == "\n";
    SplitUnique("\n\n\n\n", ParaSep, ps);
  }

  /** Whitespace-only text can give several empty sections: "\n\n\n\n"
      is three empty paragraphs, and with `chunk_size` 1 each opens its own
      section. */
  lemma FourNewlinesThreeEmptySections()
    ensures Sections("\n\n\n\n", 1) == [[], [], []]
  {
    var e: Str := [];
    var ps: seq<Str> := [e, e, e];
    FourNewlinesParagraphs();
    PackSingletons(ps, 1);
    var runs := Pack(ps, 1);
    assert runs == [[e], [e], [e]];
    assert Buffer([e]) == ParaSep by {
      var none: seq<Str> := [];
      BufferSnoc(none, e);
      assert none + [e] == [e];
    }
    ParaSepFacts();
    assert Strip(ParaSep) == [];
  }

  /** The empty text yields exactly one section, and it is empty. */
  lemma EmptyTextOneEmptySection(c: int)
    ensures Sections([], c) == [[]]
  {
    assert Paragraphs([]) == [[]];
    BlankTextEmptySections([], c);
  }
}
