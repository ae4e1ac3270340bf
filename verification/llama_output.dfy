/**
 The clean-up applied to the standard output of `llama-cli` before it is
 submitted as a meeting summary (`clean_llama_output` in main.py). The text
 after the first "(truncated)" marker is kept, the text from the first
 "[ Prompt:" footer after that point onward is dropped, and the remainder is
 stripped of surrounding whitespace. The operation is total: it never fails, and it may
 return the empty string.
 */
module LlamaOutput {
  import opened Strings

  /** The start marker: `clean_llama_output` keeps only the text after it. */
  const TruncatedMarker: string := "(truncated)"

  /** The footer marker: `clean_llama_output` drops it and all that follows. */
  const PromptMarker: string := "[ Prompt:"

  /** Step 1: everything up to and including the first start marker goes.
      What is left is a suffix of `text` that begins right after the first
      marker, or all of `text` when there is no marker. */
  function CutStart(text: string): (r: string)
    ensures OccursAt(text, r, |text| - |r|)
    ensures Contains(text, TruncatedMarker) ==> |r| <= |text| - |TruncatedMarker|
    ensures !Contains(text, TruncatedMarker) ==> r == text
  {
    if Contains(text, TruncatedMarker) then
      var idx := IndexOf(text, TruncatedMarker).value;
      text[idx + |TruncatedMarker|..]
    else
      text
  }

  /** Step 2: everything from the first footer marker onward goes. What is
      left is a prefix of `text` free of the marker, ending right at its
      first occurrence or at the end of `text`. */
  function CutEnd(text: string): (r: string)
    ensures OccursAt(text, r, 0)
    ensures !Contains(r, PromptMarker)
    ensures Contains(text, PromptMarker) ==> OccursAt(text, PromptMarker, |r|)
    ensures !Contains(text, PromptMarker) ==> r == text
  {
    if Contains(text, PromptMarker) then
      var idx := IndexOf(text, PromptMarker).value;
      NotContainsBeforeFirst(text, PromptMarker, idx);
      text[..idx]
    else
      text
  }

  /** `clean_llama_output(raw, prompt)`. The prompt is accepted and ignored.
      Its contract is stated by `CleanContract` and `CleanIsStrippedWindow`. */
  function CleanLlamaOutput(raw: string, prompt: string): string {
    Strip(CutEnd(CutStart(raw)))
  }

  /** The summary is a piece of `raw`, free of the footer marker and of
      surrounding whitespace; no input makes the cleaning fail. */
  lemma CleanContract(raw: string, prompt: string)
    ensures var r := CleanLlamaOutput(raw, prompt);
            && Contains(raw, r) && |r| <= |raw|
            && !Contains(r, PromptMarker)
            && (r == [] || (!IsSpace(r[0]) && !IsSpace(r[|r| - 1])))
  {
    var afterStart := CutStart(raw);
    var beforeEnd := CutEnd(afterStart);
    var r := Strip(beforeEnd);
    PieceOfRaw(raw, afterStart, beforeEnd, r);
    FooterGone(beforeEnd, r);
  }

  lemma PieceOfRaw(raw: string, afterStart: string, beforeEnd: string, r: string)
    requires afterStart == CutStart(raw)
    requires beforeEnd == CutEnd(afterStart)
    requires r == Strip(beforeEnd)
    ensures Contains(raw, r)
  {
    var a := LeadingSpace(beforeEnd);
    var s := |raw| - |afterStart|;
    OccursTrans(raw, afterStart, beforeEnd, s, 0);
    OccursTrans(raw, beforeEnd, r, s, a);
  }

  lemma FooterGone(beforeEnd: string, r: string)
    requires !Contains(beforeEnd, PromptMarker)
    requires r == Strip(beforeEnd)
    ensures !Contains(r, PromptMarker)
  {
    var a := LeadingSpace(beforeEnd);
    NotContainsInfix(beforeEnd, r, a, PromptMarker);
  }

  /** With neither marker present, cleaning only strips whitespace. */
  lemma NoMarkersOnlyStrips(raw: string, prompt: string)
    requires !Contains(raw, TruncatedMarker) && !Contains(raw, PromptMarker)
    ensures CleanLlamaOutput(raw, prompt) == Strip(raw)
  {
  }

  /** When the start marker occurs, the result comes from the text strictly
      after its FIRST occurrence. A later occurrence before the footer
      survives (`FirstPassKeepsSecondMarker`); one after the footer is cut
      with it (`MarkerAfterFooterCut`). */
  lemma AfterFirstTruncation(raw: string, prompt: string, i: int)
    requires FirstOccurrence(raw, TruncatedMarker, i)
    ensures Contains(raw[i + |TruncatedMarker|..], CleanLlamaOutput(raw, prompt))
  {
    FirstOccurrenceUnique(raw, TruncatedMarker, i);
    var afterStart := raw[i + |TruncatedMarker|..];
    assert CutStart(raw) == afterStart;
    var beforeEnd := CutEnd(afterStart);
    var r := Strip(beforeEnd);
    assert OccursAt(afterStart, beforeEnd, 0);
    var a := LeadingSpace(beforeEnd);
    OccursTrans(afterStart, beforeEnd, r, 0, a);
  }

  /** The prompt argument has no influence on the result. */
  lemma PromptIgnored(raw: string, p1: string, p2: string)
    ensures CleanLlamaOutput(raw, p1) == CleanLlamaOutput(raw, p2)
  {
  }

  /** `a` is where the payload starts: just after the first start marker,
      or at 0 when there is none. */
  ghost predicate PayloadStart(raw: string, a: int) {
    || (a >= |TruncatedMarker| && FirstOccurrence(raw, TruncatedMarker, a - |TruncatedMarker|))
    || (a == 0 && !Contains(raw, TruncatedMarker))
  }

  /** `m` is where the payload in `text` ends: at the first footer marker,
      or at the end of `text` when there is none. */
  ghost predicate PayloadEnd(text: string, m: int) {
    || FirstOccurrence(text, PromptMarker, m)
    || (m == |text| && !Contains(text, PromptMarker))
  }

  lemma CutStartAt(raw: string, a: int)
    requires PayloadStart(raw, a)
    ensures 0 <= a <= |raw| && CutStart(raw) == raw[a..]
  {
    if Contains(raw, TruncatedMarker) {
      FirstOccurrenceUnique(raw, TruncatedMarker, a - |TruncatedMarker|);
    }
  }

  lemma CutEndAt(text: string, m: int)
    requires PayloadEnd(text, m)
    ensures 0 <= m <= |text| && CutEnd(text) == text[..m]
  {
    if Contains(text, PromptMarker) {
      FirstOccurrenceUnique(text, PromptMarker, m);
    }
  }

  /** `raw[a..][..m]` is the payload window of `raw`: it starts at the
      payload start `a` and runs for `m` characters, up to the payload end. */
  ghost predicate IsWindow(raw: string, a: int, m: int) {
    PayloadStart(raw, a) && PayloadEnd(raw[a..], m)
  }

  /** The summary is the payload window, stripped. */
  ghost predicate SummaryIsWindow(raw: string, prompt: string, a: int, m: int) {
    && IsWindow(raw, a, m)
    && CleanLlamaOutput(raw, prompt) == Strip(raw[a..][..m])
  }

  /** The two cuts leave exactly the window. */
  lemma CutsLeaveWindow(raw: string, a: int, m: int)
    requires IsWindow(raw, a, m)
    ensures 0 <= a <= |raw| && 0 <= m <= |raw| - a
    ensures CutEnd(CutStart(raw)) == raw[a..][..m]
  {
    CutStartAt(raw, a);
    CutEndAt(raw[a..], m);
  }

  lemma CleanOfWindow(raw: string, prompt: string, w: string)
    requires CutEnd(CutStart(raw)) == w
    ensures CleanLlamaOutput(raw, prompt) == Strip(w)
  {
  }

  /** Reference description of the whole operation in terms of marker
      positions: the result is the payload window, stripped. */
  lemma CleanIsStrippedWindow(raw: string, prompt: string, a: int, m: int)
    requires IsWindow(raw, a, m)
    ensures 0 <= a <= |raw| && 0 <= m <= |raw| - a
    ensures CleanLlamaOutput(raw, prompt) == Strip(raw[a..][..m])
  {
    CutsLeaveWindow(raw, a, m);
    CleanOfWindow(raw, prompt, raw[a..][..m]);
  }

  /** Every raw output has a payload start. */
  lemma PayloadStartExists(raw: string)
    ensures exists a :: PayloadStart(raw, a)
  {
    match IndexOf(raw, TruncatedMarker)
    case Some(i) => assert PayloadStart(raw, i + |TruncatedMarker|);
    case None => assert PayloadStart(raw, 0);
  }

  /** Every text has a payload end. */
  lemma PayloadEndExists(text: string)
    ensures exists m :: PayloadEnd(text, m)
  {
    match IndexOf(text, PromptMarker)
    case Some(i) => assert PayloadEnd(text, i);
    case None => assert PayloadEnd(text, |text|);
  }

  /** The reference description covers every input: each raw output has a
      payload window, and the summary is that window, stripped. */
  lemma EveryOutputHasWindow(raw: string, prompt: string)
    ensures exists a, m :: SummaryIsWindow(raw, prompt, a, m)
  {
    PayloadStartExists(raw);
    var a :| PayloadStart(raw, a);
    CutStartAt(raw, a);
    PayloadEndExists(raw[a..]);
    var m :| PayloadEnd(raw[a..], m);
    CleanIsStrippedWindow(raw, prompt, a, m);
    assert SummaryIsWindow(raw, prompt, a, m);
  }

  /** A blank answer comes out as the empty string; nothing is raised. */
  lemma BlankOutputGivesEmpty(raw: string, prompt: string)
    requires forall k :: 0 <= k < |raw| ==> IsSpace(raw[k])
    ensures CleanLlamaOutput(raw, prompt) == ""
  {
    CleanContract(raw, prompt);
  }

  /** Without a footer, the window is everything after the payload start. */
  lemma FooterlessWindow(raw: string, a: int)
    requires PayloadStart(raw, a)
    requires 0 <= a <= |raw| && !Contains(raw[a..], PromptMarker)
    ensures IsWindow(raw, a, |raw[a..]|)
  {
  }

  /** Without a footer and without whitespace at its ends, the whole
      payload is the result. */
  lemma WholePayloadKept(raw: string, prompt: string, a: int)
    requires PayloadStart(raw, a)
    requires 0 <= a <= |raw| && !Contains(raw[a..], PromptMarker)
    requires var p := raw[a..]; p == [] || (!IsSpace(p[0]) && !IsSpace(p[|p| - 1]))
    ensures CleanLlamaOutput(raw, prompt) == raw[a..]
  {
    var p := raw[a..];
    FooterlessWindow(raw, a);
    CleanIsStrippedWindow(raw, prompt, a, |p|);
    assert p[..|p|] == p;
    StripKeepsTrimmed(p);
  }

  /** First pass over a text with two start markers: only the first goes. */
  lemma FirstPassKeepsSecondMarker(x: char, y: char)
    requires !IsSpace(x) && !IsSpace(y) && x != '[' && y != '['
    ensures CleanLlamaOutput(TruncatedMarker + [x] + TruncatedMarker + [y], "")
         == [x] + TruncatedMarker + [y]
  {
    var raw := TruncatedMarker + [x] + TruncatedMarker + [y];
    var once := [x] + TruncatedMarker + [y];
    var a := |TruncatedMarker|;
    assert raw[0..a] == TruncatedMarker;
    assert PayloadStart(raw, a);
    assert raw[a..] == once;
    NotContainsFirstChar(once, PromptMarker);
    WholePayloadKept(raw, "", a);
  }

  /** Second pass over that output: the surviving marker is cut as well. */
  lemma SecondPassCutsAgain(x: char, y: char)
    requires !IsSpace(y) && x != '(' && y != '['
    ensures CleanLlamaOutput([x] + TruncatedMarker + [y], "") == [y]
  {
    var once := [x] + TruncatedMarker + [y];
    var a := 1 + |TruncatedMarker|;
    assert once[1..a] == TruncatedMarker;
    assert !OccursAt(once, TruncatedMarker, 0) by {
      assert once[0] != TruncatedMarker[0];
    }
    assert PayloadStart(once, a);
    assert once[a..] == [y];
    NotContainsFirstChar([y], PromptMarker);
    WholePayloadKept(once, "", a);
  }

  /** A start marker after the footer is cut away together with the footer. */
  lemma MarkerAfterFooterCut(x: char)
    requires !IsSpace(x) && x != '['
    ensures CleanLlamaOutput(TruncatedMarker + [x] + PromptMarker + TruncatedMarker, "") == [x]
  {
    var raw := TruncatedMarker + [x] + PromptMarker + TruncatedMarker;
    var a := |TruncatedMarker|;
    var rest := [x] + PromptMarker + TruncatedMarker;
    assert raw[0..a] == TruncatedMarker;
    assert PayloadStart(raw, a);
    assert raw[a..] == rest;
    assert rest[1..1 + |PromptMarker|] == PromptMarker;
    assert !OccursAt(rest, PromptMarker, 0) by {
      assert rest[0] != PromptMarker[0];
    }
    assert PayloadEnd(rest, 1);
    CleanIsStrippedWindow(raw, "", a, 1);
    assert rest[..1] == [x];
    StripKeepsTrimmed([x]);
  }

  /** Cleaning is not idempotent: a second "(truncated)" that survives the
      first pass is cut by a second pass. */
  lemma NotIdempotent(x: char, y: char)
    requires !IsSpace(x) && !IsSpace(y) && x != '[' && y != '[' && x != '('
    ensures var once := CleanLlamaOutput(TruncatedMarker + [x] + TruncatedMarker + [y], "");
            CleanLlamaOutput(once, "") != once
  {
    FirstPassKeepsSecondMarker(x, y);
    SecondPassCutsAgain(x, y);
  }
}
