/** The content splitter of the DeepSeek stream: text is shown as it arrives until the
    DSML marker appears, and everything from the marker on is held back for the tool-call
    parser.  The text arrives in arbitrary chunks, so the marker may be cut anywhere. */
module DsmlSplitter {
  import opened Chunks

  const MARKER := "<｜｜DSML｜｜tool_calls>"
  const MAX_TOOL_ARGUMENT_CHARS := 1_000_000

  /** How a stream ended: all chunks consumed, or the held-back text grew too large. */
  datatype Outcome =
    | Finished(isDsml: bool, held: string)
    | TooLarge

  predicate OccursAt(text: string, marker: string, i: nat) {
    i + |marker| <= |text| && text[i..i + |marker|] == marker
  }

  predicate Occurs(text: string, marker: string) {
    exists i :: 0 <= i <= |text| && OccursAt(text, marker, i)
  }

  /** Python's `str.find`, as a scan from `from`. */
  function FindFrom(text: string, marker: string, from: nat): (index: int)
    requires from <= |text|
    ensures index == -1 || from <= index <= |text|
    ensures index >= 0 ==> OccursAt(text, marker, index)
    ensures forall j :: from <= j <= |text| && (index < 0 || j < index) ==> !OccursAt(text, marker, j)
    decreases |text| - from
  {
    if OccursAt(text, marker, from) then from
    else if from == |text| then -1
    else FindFrom(text, marker, from + 1)
  }

  function Find(text: string, marker: string): (index: int)
    ensures index >= 0 <==> Occurs(text, marker)
  {
    FindFrom(text, marker, 0)
  }

  /** What the user must see of a complete text: all of it, up to the marker. */
  function Visible(text: string): string {
    if Find(text, MARKER) < 0 then text else text[..Find(text, MARKER)]
  }

  /** What must be held back of a complete text. */
  function HeldBack(text: string): Outcome {
    if Find(text, MARKER) < 0 then Finished(false, "")
    else if |text| - Find(text, MARKER) > MAX_TOOL_ARGUMENT_CHARS then TooLarge
    else Finished(true, text[Find(text, MARKER)..])
  }

  /** A first occurrence is where `Find` stops. */
  lemma FirstIsFind(text: string, marker: string, i: nat)
    requires OccursAt(text, marker, i)
    requires forall j :: 0 <= j < i ==> !OccursAt(text, marker, j)
    ensures Find(text, marker) == i
  {
  }

  /** The first marker of a text is also the first marker of every extension of it. */
  lemma FindExtends(text: string, more: string, marker: string)
    requires Occurs(text, marker)
    ensures Occurs(text + more, marker)
    ensures Find(text + more, marker) == Find(text, marker)
  {
    var i := Find(text, marker);
    var whole := text + more;
    assert whole[i..i + |marker|] == text[i..i + |marker|];
    forall j | 0 <= j < i ensures !OccursAt(whole, marker, j) {
      assert !OccursAt(text, marker, j);
      assert j + |marker| <= |text|;
      assert whole[j..j + |marker|] == text[j..j + |marker|];
    }
    FirstIsFind(whole, marker, i);
  }

  lemma OccursAtShift(left: string, right: string, marker: string, j: nat)
    ensures OccursAt(left + right, marker, |left| + j) == OccursAt(right, marker, j)
  {
    if j + |marker| <= |right| {
      assert (left + right)[|left| + j..|left| + j + |marker|] == right[j..j + |marker|];
    }
  }

  /** When a marker-free text is cut before its last |marker| - 1 characters, every marker
      of an extension begins at or after the cut. */
  lemma FindInSuffix(shown: string, probe: string, chunk: string, marker: string)
    requires !Occurs(shown + probe, marker)
    requires shown != "" ==> |probe| >= |marker| - 1
    ensures var found := Find(probe + chunk, marker);
            Find(shown + (probe + chunk), marker) == if found < 0 then -1 else |shown| + found
  {
    var suffix := probe + chunk;
    var whole := shown + suffix;
    forall j | 0 <= j < |shown| ensures !OccursAt(whole, marker, j) {
      assert !OccursAt(shown + probe, marker, j);
      if j + |marker| <= |shown + probe| {
        assert whole[j..j + |marker|] == (shown + probe)[j..j + |marker|];
      } else {
        assert false;
      }
    }
    forall j | |shown| <= j
      ensures OccursAt(whole, marker, j) == OccursAt(suffix, marker, j - |shown|)
    {
      OccursAtShift(shown, suffix, marker, j - |shown|);
    }
    var found := Find(suffix, marker);
    if found >= 0 {
      FirstIsFind(whole, marker, |shown| + found);
    }
  }

  /** Between chunks, before the marker: nothing of `text` is lost, it has no marker, and
      what is still unshown is too short to contain one. */
  ghost predicate Streaming(text: string, visible: string, probe: string, marker: string) {
    && visible + probe == text
    && !Occurs(text, marker)
    && |probe| < |marker|
    && (visible != "" ==> |probe| == |marker| - 1)
  }

  /** Between chunks, after the marker: `text` is cut exactly where its first marker begins. */
  ghost predicate Holding(text: string, visible: string, held: string, marker: string) {
    && visible + held == text
    && Occurs(text, marker)
    && |visible| == Find(text, marker)
  }

  /** How much of a marker-free probe can be shown: all but |marker| - 1 characters. */
  function FlushLength(probe: string, marker: string): (flush: nat)
    requires |marker| > 0
    ensures flush <= |probe|
  {
    var keep := |marker| - 1;
    if |probe| > keep then |probe| - keep else 0
  }

  /** The marker is complete. */
  lemma StreamFinds(text: string, visible: string, probe: string, content: string, marker: string)
    requires Streaming(text, visible, probe, marker) && Find(probe + content, marker) >= 0
    ensures var joined := probe + content;
            var index := Find(joined, marker);
            Holding(text + content, visible + joined[..index], joined[index..], marker)
  {
    FindInSuffix(visible, probe, content, marker);
    assert visible + (probe + content) == text + content by {
      assert (visible + probe) + content == visible + (probe + content);
    }
    HoldsFrom(visible, probe + content, marker);
  }

  lemma HoldsFrom(visible: string, joined: string, marker: string)
    requires Find(joined, marker) >= 0 && Find(visible + joined, marker) == |visible| + Find(joined, marker)
    ensures var index := Find(joined, marker);
            Holding(visible + joined, visible + joined[..index], joined[index..], marker)
  {
    var index := Find(joined, marker);
    assert visible + joined[..index] + joined[index..] == visible + joined;
  }

  /** Still no marker: what is too short to contain one stays unshown. */
  lemma StreamContinues(text: string, visible: string, probe: string, content: string, marker: string)
    requires Streaming(text, visible, probe, marker) && Find(probe + content, marker) < 0
    ensures var joined := probe + content;
            var flush := FlushLength(joined, marker);
            Streaming(text + content, visible + joined[..flush], joined[flush..], marker)
  {
    var joined := probe + content;
    FindInSuffix(visible, probe, content, marker);
    assert visible + joined == text + content;
    var flush := FlushLength(joined, marker);
    assert visible + joined[..flush] + joined[flush..] == visible + joined;
  }

  lemma StreamStep(text: string, visible: string, probe: string, content: string, marker: string)
    requires Streaming(text, visible, probe, marker)
    ensures
      var joined := probe + content;
      var index := Find(joined, marker);
      if index >= 0 then
        Holding(text + content, visible + joined[..index], joined[index..], marker)
      else
        var flush := FlushLength(joined, marker);
        Streaming(text + content, visible + joined[..flush], joined[flush..], marker)
  {
    if Find(probe + content, marker) >= 0 {
      StreamFinds(text, visible, probe, content, marker);
    } else {
      StreamContinues(text, visible, probe, content, marker);
    }
  }

  lemma HoldStep(text: string, visible: string, held: string, content: string, marker: string)
    requires Holding(text, visible, held, marker)
    ensures Holding(text + content, visible, held + content, marker)
  {
    FindExtends(text, content, marker);
    assert visible + (held + content) == text + content;
  }

  /** Once the marker is found and too much is held, no later chunk can change the result. */
  lemma OverflowIsFinal(text: string, visible: string, held: string, whole: string)
    requires Holding(text, visible, held, MARKER) && text <= whole
    requires |held| > MAX_TOOL_ARGUMENT_CHARS
    ensures Visible(whole) == visible && HeldBack(whole) == TooLarge
  {
    assert whole == text + whole[|text|..];
    FindExtends(text, whole[|text|..], MARKER);
    assert whole[..|visible|] == visible;
  }

  lemma {:induction false} ConcatSnoc(chunks: seq<string>, chunk: string)
    ensures Concat(chunks + [chunk]) == Concat(chunks) + chunk
  {
    assert (chunks + [chunk])[..|chunks|] == chunks;
  }

  lemma {:induction false} ConcatPrefix(chunks: seq<string>, n: nat)
    requires n <= |chunks|
    ensures Concat(chunks[..n]) <= Concat(chunks)
    decreases |chunks| - n
  {
    if n == |chunks| {
      assert chunks[..n] == chunks;
    } else {
      ConcatPrefix(chunks, n + 1);
      ConcatSnoc(chunks[..n], chunks[n]);
      assert chunks[..n] + [chunks[n]] == chunks[..n + 1];
    }
  }

  /** The streaming loop.  Both results are functions of the concatenated text alone, so
      they do not depend on where the chunks were cut. */
  method SplitContent(chunks: seq<string>) returns (shown: seq<string>, outcome: Outcome)
    ensures Concat(shown) == Visible(Concat(chunks))
    ensures outcome == HeldBack(Concat(chunks))
    ensures "" !in shown
  {
    shown := [];
    var probe, isDsml, held := "", false, "";
    for n := 0 to |chunks|
      invariant "" !in shown
      invariant !isDsml ==> held == "" && Streaming(Concat(chunks[..n]), Concat(shown), probe, MARKER)
      invariant isDsml ==> Holding(Concat(chunks[..n]), Concat(shown), held, MARKER)
      invariant |held| <= MAX_TOOL_ARGUMENT_CHARS
    {
      var content := chunks[n];
      ghost var before, visible := Concat(chunks[..n]), Concat(shown);
      assert chunks[..n] + [content] == chunks[..n + 1];
      ConcatSnoc(chunks[..n], content);
      ConcatPrefix(chunks, n + 1);
      if content == "" {
        assert before + content == before;
        continue;
      }
      if isDsml {
        HoldStep(before, visible, held, content, MARKER);
        held := held + content;
        if |held| > MAX_TOOL_ARGUMENT_CHARS {
          OverflowIsFinal(before + content, visible, held, Concat(chunks));
          return shown, TooLarge;
        }
      } else {
        StreamStep(before, visible, probe, content, MARKER);
        probe := probe + content;
        var markerIndex := Find(probe, MARKER);
        if markerIndex >= 0 {
          var prefix := probe[..markerIndex];
          if prefix != "" {
            ConcatSnoc(shown, prefix);
            shown := shown + [prefix];
          }
          assert Concat(shown) == visible + prefix;
          isDsml := true;
          held := probe[markerIndex..];
          if |held| > MAX_TOOL_ARGUMENT_CHARS {
            OverflowIsFinal(before + content, visible + prefix, held, Concat(chunks));
            return shown, TooLarge;
          }
          probe := "";
        } else {
          var flush := FlushLength(probe, MARKER);
          ghost var whole := probe;
          if flush > 0 {
            ConcatSnoc(shown, probe[..flush]);
            shown := shown + [probe[..flush]];
            probe := probe[flush..];
          }
          assert Concat(shown) == visible + whole[..flush];
          assert probe == whole[flush..];
        }
      }
    }
    assert chunks[..|chunks|] == chunks;
    if isDsml {
      assert Concat(chunks)[|Concat(shown)|..] == held;
    } else if probe != "" {
      ConcatSnoc(shown, probe);
      shown := shown + [probe];
    }
    outcome := Finished(isDsml, held);
  }

  lemma OccursAtIsPrefix(text: string, marker: string, i: nat)
    requires i <= |text|
    ensures OccursAt(text, marker, i) <==> marker <= text[i..]
  {
    if i + |marker| <= |text| {
      assert text[i..i + |marker|] == text[i..][..|marker|];
    }
  }

  /** Nothing is lost or shown twice, what is shown has no marker, and no later cut of the
      same text would put a marker at the start of the held-back part. */
  lemma SplitIsExact(text: string)
    requires HeldBack(text).Finished?
    ensures Visible(text) + HeldBack(text).held == text
    ensures !Occurs(Visible(text), MARKER)
    ensures HeldBack(text).isDsml <==> Occurs(text, MARKER)
    ensures HeldBack(text).isDsml ==> MARKER <= HeldBack(text).held
    ensures forall cut :: 0 <= cut < |Visible(text)| ==> !(MARKER <= text[cut..])
  {
    var visible := Visible(text);
    forall j | 0 <= j <= |visible| ensures !OccursAt(visible, MARKER, j) {
      if j + |MARKER| <= |visible| {
        assert visible[j..j + |MARKER|] == text[j..j + |MARKER|];
        assert !OccursAt(text, MARKER, j);
      }
    }
    forall cut | 0 <= cut < |visible| ensures !(MARKER <= text[cut..]) {
      assert !OccursAt(text, MARKER, cut);
      OccursAtIsPrefix(text, MARKER, cut);
    }
  }
}
