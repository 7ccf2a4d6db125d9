/**
  The title a chat gets from its first user message: markdown noise is
  removed, whitespace collapsed, the first sentence taken and, when longer
  than 60 characters, cut back (at a space where possible) and marked "...".
*/
module ChatTitle {
  import opened Text

  const Fallback: string := "Conversacion general"
  const MaxLen: nat := 60
  /** A cut at a space is taken only past this position. */
  const MinCut: nat := 20
  const Ellipsis: string := "..."
  const Fence: string := "```"

  /** The characters of the class `[#>*_`~[\]()]`. */
  predicate IsMarkdownMark(c: char)
  {
    c == '#' || c == '>' || c == '*' || c == '_' || c == '`' || c == '~' || c == '[' || c == ']' || c == '(' || c == ')'
  }

  /** A fence (three backticks) starts at position `i`. */
  predicate FenceAt(s: string, i: nat)
  {
    i + 3 <= |s| && s[i] == '`' && s[i + 1] == '`' && s[i + 2] == '`'
  }

  /** The first position at or after `from` where a fence starts, or -1. */
  function FindFence(s: string, from: nat): (j: int)
    requires from <= |s|
    ensures j == -1 || (from <= j && FenceAt(s, j))
    ensures forall i :: from <= i && (j == -1 || i < j) ==> !FenceAt(s, i)
    decreases |s| - from
  {
    if from + 3 > |s| then -1
    else if FenceAt(s, from) then from
    else FindFence(s, from + 1)
  }

  /** `.replace(/```[\s\S]*?```/g, " ")`: scanning left to right, a fence and
      everything up to the nearest closing fence become one space; a fence
      that is never closed is kept. */
  function StripCodeFences(s: string): string
    decreases |s|
  {
    if |s| < 3 then s
    else if FenceAt(s, 0) && FindFence(s, 3) >= 0 then " " + StripCodeFences(s[FindFence(s, 3) + 3..])
    else [s[0]] + StripCodeFences(s[1..])
  }

  /** Text without a fence passes through unchanged. */
  lemma {:induction false} StripCodeFencesNoFence(s: string)
    requires forall i :: 0 <= i ==> !FenceAt(s, i)
    ensures StripCodeFences(s) == s
    decreases |s|
  {
    if |s| >= 3 {
      assert !FenceAt(s, 0);
      forall i | 0 <= i ensures !FenceAt(s[1..], i) {
        assert !FenceAt(s, i + 1);
      }
      StripCodeFencesNoFence(s[1..]);
      assert s == [s[0]] + s[1..];
    }
  }

  /** A closed fence at the start is replaced, with what it encloses, by one space. */
  lemma StripCodeFencesBlock(code: string, rest: string)
    requires forall i :: 0 <= i ==> !FenceAt(code, i)
    requires code == [] || code[|code| - 1] != '`'
    ensures StripCodeFences(Fence + code + Fence + rest) == " " + StripCodeFences(rest)
  {
    var s := Fence + code + Fence + rest;
    var j := |code| + 3;
    assert forall k :: 0 <= k < 3 ==> s[k] == Fence[k] == '`';
    assert forall k :: 0 <= k < 3 ==> s[j + k] == Fence[k];
    assert FenceAt(s, 0) && FenceAt(s, j);
    assert forall k :: 0 <= k < |code| ==> s[k + 3] == code[k];
    forall i | 3 <= i < j ensures !FenceAt(s, i) {
      if i + 3 <= j {
        assert !FenceAt(code, i - 3);
      } else {
        assert s[j - 1] == code[|code| - 1];
      }
    }
    assert FindFence(s, 3) == j;
    assert s[j + 3..] == rest;
  }

  /** `.replace(/[#>*_`~[\]()]/g, " ")`. */
  function BlankMarkdown(s: string): (r: string)
    ensures |r| == |s|
    ensures forall i :: 0 <= i < |r| ==> !IsMarkdownMark(r[i])
    ensures forall i :: 0 <= i < |s| && IsMarkdownMark(s[i]) ==> r[i] == ' '
    ensures forall i :: 0 <= i < |s| && !IsMarkdownMark(s[i]) ==> r[i] == s[i]
  {
    seq(|s|, i requires 0 <= i < |s| => if IsMarkdownMark(s[i]) then ' ' else s[i])
  }

  predicate SingleSpaced(s: string)
  {
    forall i :: 0 <= i < |s| - 1 ==> !(s[i] == ' ' && s[i + 1] == ' ')
  }

  /** The only whitespace in `s` is the space. */
  predicate SpacesOnly(s: string)
  {
    forall i :: 0 <= i < |s| && IsWhitespace(s[i]) ==> s[i] == ' '
  }

  /** Every character of `r` is a space or occurs in `s`. */
  predicate CharsFrom(r: string, s: string)
  {
    forall i :: 0 <= i < |r| ==> r[i] == ' ' || r[i] in s
  }

  /** One step of the collapse: the first character (whitespace becoming a
      space) before the collapse of the rest. */
  lemma CollapseStep(s: string, rest: string, tail: string)
    requires s != []
    requires rest == if IsWhitespace(s[0]) then TrimStart(s) else s[1..]
    requires tail == [] <==> rest == []
    requires rest != [] ==> (IsWhitespace(rest[0]) <==> tail[0] == ' ')
    requires SpacesOnly(tail) && SingleSpaced(tail) && CharsFrom(tail, rest)
    ensures var r := [if IsWhitespace(s[0]) then ' ' else s[0]] + tail;
      SpacesOnly(r) && SingleSpaced(r) && CharsFrom(r, s)
  {
    var r := [if IsWhitespace(s[0]) then ' ' else s[0]] + tail;
    assert forall i :: 0 < i < |r| ==> r[i] == tail[i - 1];
    assert forall c :: c in rest ==> c in s;
    if IsWhitespace(s[0]) && tail != [] {
      assert !IsWhitespace(rest[0]);
    }
  }

  /** Every whitespace character replaced by a space. */
  function WhitespaceToSpaces(s: string): (r: string)
  {
    if s == [] then [] else [if IsWhitespace(s[0]) then ' ' else s[0]] + WhitespaceToSpaces(s[1..])
  }

  /** Every space that another space follows is dropped, so each run of
      spaces is left as one. */
  function DropRepeatedSpaces(t: string): string
  {
    if |t| <= 1 then t
    else if t[0] == ' ' && t[1] == ' ' then DropRepeatedSpaces(t[1..])
    else [t[0]] + DropRepeatedSpaces(t[1..])
  }

  /** A space put before text whose leading whitespace is squeezed away is
      what squeezing the space and that whitespace together gives. */
  lemma {:induction false} LeadingSpaceSqueezed(u: string)
    ensures DropRepeatedSpaces(" " + WhitespaceToSpaces(u)) == " " + DropRepeatedSpaces(WhitespaceToSpaces(TrimStart(u)))
    decreases |u|
  {
    if u != [] {
      var t := " " + WhitespaceToSpaces(u);
      assert t[1..] == WhitespaceToSpaces(u);
      if IsWhitespace(u[0]) {
        assert WhitespaceToSpaces(u) == " " + WhitespaceToSpaces(u[1..]);
        LeadingSpaceSqueezed(u[1..]);
      } else {
        assert TrimStart(u) == u;
      }
    }
  }

  /** `.replace(/\s+/g, " ")`: every maximal run of whitespace becomes one
      space. */
  function CollapseWhitespace(s: string): (r: string)
    ensures r == [] <==> s == []
    ensures s != [] ==> (IsWhitespace(s[0]) <==> r[0] == ' ')
    ensures SpacesOnly(r) && SingleSpaced(r) && CharsFrom(r, s)
    decreases |s|
  {
    if s == [] then []
    else
      var rest := if IsWhitespace(s[0]) then TrimStart(s) else s[1..];
      var tail := CollapseWhitespace(rest);
      CollapseStep(s, rest, tail);
      [if IsWhitespace(s[0]) then ' ' else s[0]] + tail
  }

  /** The collapse is the character-wise replacement of whitespace by
      spaces followed by the squeezing of runs of spaces: the non-whitespace
      text survives in order, and one space stands wherever whitespace did. */
  lemma {:induction false} CollapseIsSqueeze(s: string)
    ensures CollapseWhitespace(s) == DropRepeatedSpaces(WhitespaceToSpaces(s))
    decreases |s|
  {
    if s != [] {
      if IsWhitespace(s[0]) {
        var rest := TrimStart(s);
        assert TrimStart(s[1..]) == rest;
        CollapseIsSqueeze(rest);
        LeadingSpaceSqueezed(s[1..]);
      } else {
        CollapseIsSqueeze(s[1..]);
        var t := WhitespaceToSpaces(s);
        assert t[1..] == WhitespaceToSpaces(s[1..]);
      }
    }
  }

  /** What the cleaning guarantees: no markdown marks, no whitespace but
      single spaces. */
  predicate IsCleanText(s: string)
  {
    HasNoMarks(s) && SpacesOnly(s) && SingleSpaced(s)
  }

  lemma CleanTextSlice(s: string, a: nat, b: nat)
    requires IsCleanText(s) && a <= b <= |s|
    ensures IsCleanText(s[a..b])
  {
    var t := s[a..b];
    forall i | 0 <= i < |t| ensures t[i] == s[a + i] { }
  }

  lemma CollapsedIsClean(blanked: string)
    requires forall i :: 0 <= i < |blanked| ==> !IsMarkdownMark(blanked[i])
    ensures IsCleanText(CollapseWhitespace(blanked))
  {
    var collapsed := CollapseWhitespace(blanked);
    assert SpacesOnly(collapsed) && SingleSpaced(collapsed) && CharsFrom(collapsed, blanked);
    forall i | 0 <= i < |collapsed| ensures !IsMarkdownMark(collapsed[i]) {
      if collapsed[i] != ' ' {
        var j :| 0 <= j < |blanked| && blanked[j] == collapsed[i];
        assert !IsMarkdownMark(blanked[j]);
      }
    }
  }

  lemma TrimStartClean(s: string)
    requires IsCleanText(s)
    ensures IsCleanText(TrimStart(s))
  {
    CleanTextSlice(s, |s| - |TrimStart(s)|, |s|);
  }

  lemma TrimEndClean(s: string)
    requires IsCleanText(s)
    ensures IsCleanText(TrimEnd(s))
  {
    CleanTextSlice(s, 0, |TrimEnd(s)|);
  }

  /** Trimming clean text keeps it clean. */
  lemma TrimCleanText(s: string)
    requires IsCleanText(s)
    ensures IsCleanText(Trim(s))
  {
    TrimStartClean(s);
    TrimEndClean(TrimStart(s));
  }

  /** The characters that carry text: neither whitespace nor a markdown mark. */
  predicate IsVisible(c: char)
  {
    !IsWhitespace(c) && !IsMarkdownMark(c)
  }

  /** The visible characters of `s`, in order. */
  function Visible(s: string): string
  {
    if s == [] then [] else (if IsVisible(s[0]) then [s[0]] else []) + Visible(s[1..])
  }

  lemma {:induction false} VisibleAppend(a: string, b: string)
    ensures Visible(a + b) == Visible(a) + Visible(b)
    decreases |a|
  {
    if a == [] {
      assert a + b == b;
    } else {
      var head := if IsVisible(a[0]) then [a[0]] else [];
      assert (a + b)[0] == a[0] && (a + b)[1..] == a[1..] + b;
      assert Visible(a + b) == head + Visible(a[1..] + b);
      VisibleAppend(a[1..], b);
      assert Visible(a) == head + Visible(a[1..]);
    }
  }

  lemma {:induction false} VisibleOfWhitespace(w: string)
    requires forall i :: 0 <= i < |w| ==> IsWhitespace(w[i])
    ensures Visible(w) == []
    decreases |w|
  {
    if w != [] {
      VisibleOfWhitespace(w[1..]);
    }
  }

  lemma {:induction false} VisibleBlanked(s: string)
    ensures Visible(BlankMarkdown(s)) == Visible(s)
    decreases |s|
  {
    if s != [] {
      assert BlankMarkdown(s)[1..] == BlankMarkdown(s[1..]);
      VisibleBlanked(s[1..]);
    }
  }

  lemma {:induction false} VisibleSpaced(s: string)
    ensures Visible(WhitespaceToSpaces(s)) == Visible(s)
    decreases |s|
  {
    if s != [] {
      VisibleSpaced(s[1..]);
    }
  }

  lemma {:induction false} VisibleSqueezed(t: string)
    ensures Visible(DropRepeatedSpaces(t)) == Visible(t)
    decreases |t|
  {
    if |t| > 1 {
      VisibleSqueezed(t[1..]);
    }
  }

  lemma VisibleTrimmedStart(s: string)
    ensures Visible(TrimStart(s)) == Visible(s)
  {
    var t := TrimStart(s);
    var w := s[..|s| - |t|];
    assert s == w + t;
    VisibleOfWhitespace(w);
    VisibleAppend(w, t);
  }

  lemma VisibleTrimmedEnd(t: string)
    ensures Visible(TrimEnd(t)) == Visible(t)
  {
    var r := TrimEnd(t);
    var w := t[|r|..];
    assert t == r + w;
    VisibleOfWhitespace(w);
    VisibleAppend(r, w);
  }

  lemma VisibleTrimmed(s: string)
    ensures Visible(Trim(s)) == Visible(s)
  {
    assert Trim(s) == TrimEnd(TrimStart(s));
    VisibleTrimmedStart(s);
    VisibleTrimmedEnd(TrimStart(s));
  }

  /** Blanking marks, collapsing whitespace and trimming keep the visible
      text. */
  lemma CleaningKeepsVisible(stripped: string)
    ensures Visible(Trim(CollapseWhitespace(BlankMarkdown(stripped)))) == Visible(stripped)
  {
    var blanked := BlankMarkdown(stripped);
    VisibleBlanked(stripped);
    CollapseIsSqueeze(blanked);
    VisibleSpaced(blanked);
    VisibleSqueezed(WhitespaceToSpaces(blanked));
    VisibleTrimmed(CollapseWhitespace(blanked));
  }

  /** The cleaned text the title is taken from: clean, trimmed, and holding
      the visible characters of the fence-stripped content in order. */
  function Clean(content: string): (r: string)
    ensures IsCleanText(r)
    ensures r == [] || (r[0] != ' ' && r[|r| - 1] != ' ')
    ensures Visible(r) == Visible(StripCodeFences(content))
  {
    var stripped := StripCodeFences(content);
    var blanked := BlankMarkdown(stripped);
    var collapsed := CollapseWhitespace(blanked);
    assert IsCleanText(Trim(collapsed)) by {
      CollapsedIsClean(blanked);
      TrimCleanText(collapsed);
    }
    assert Visible(Trim(collapsed)) == Visible(stripped) by {
      CleaningKeepsVisible(stripped);
    }
    TrimmedEnds(collapsed);
    Trim(collapsed)
  }

  lemma TrimmedEnds(s: string)
    ensures var r := Trim(s); r == [] || (r[0] != ' ' && r[|r| - 1] != ' ')
  {
    var r := Trim(s);
    if r != [] {
      assert !IsWhitespace(r[0]) && !IsWhitespace(r[|r| - 1]);
    }
  }

  predicate IsTerminator(c: char)
  {
    c == '.' || c == '!' || c == '?' || c == '\n'
  }

  /** `s.split(/[.!?\n]/)[0]`: the text before the first terminator. */
  function BeforeTerminator(s: string): (r: string)
    ensures |r| <= |s| && r == s[..|r|]
    ensures forall i :: 0 <= i < |r| ==> !IsTerminator(r[i])
    ensures |r| < |s| ==> IsTerminator(s[|r|])
  {
    if s == [] || IsTerminator(s[0]) then [] else [s[0]] + BeforeTerminator(s[1..])
  }

  /** `cleaned.split(/[.!?\n]/)[0]?.trim() || cleaned`. */
  function FirstChunk(cleaned: string): (r: string)
    ensures cleaned != [] ==> r != []
    ensures r == cleaned || forall i :: 0 <= i < |r| ==> !IsTerminator(r[i])
    ensures var head := Trim(BeforeTerminator(cleaned));
      (head != [] ==> r == head) && (head == [] ==> r == cleaned)
  {
    var before := BeforeTerminator(cleaned);
    var head := Trim(before);
    if head == [] then cleaned
    else
      TrimmedHasNoTerminator(before);
      head
  }

  lemma TrimmedHasNoTerminator(before: string)
    requires forall i :: 0 <= i < |before| ==> !IsTerminator(before[i])
    ensures forall i :: 0 <= i < |Trim(before)| ==> !IsTerminator(Trim(before)[i])
  {
    var head := Trim(before);
    forall i | 0 <= i < |head| ensures !IsTerminator(head[i]) {
      assert head[i] in head;
      var j :| 0 <= j < |before| && before[j] == head[i];
    }
  }

  lemma FirstChunkIsClean(cleaned: string)
    requires IsCleanText(cleaned)
    ensures IsCleanText(FirstChunk(cleaned))
  {
    var before := BeforeTerminator(cleaned);
    CleanTextSlice(cleaned, 0, |before|);
    TrimCleanText(before);
  }

  /** `s.lastIndexOf(" ")`. */
  function LastSpace(s: string): (j: int)
    ensures -1 <= j < |s|
    ensures j >= 0 ==> s[j] == ' '
    ensures forall i :: j < i < |s| ==> s[i] != ' '
  {
    if s == [] then -1
    else if s[|s| - 1] == ' ' then |s| - 1
    else LastSpace(s[..|s| - 1])
  }

  /** `title` is `chunk` (longer than 60 characters) cut back to its last
      space past position 20 within the first 60 characters, or cut at 60
      when there is none, followed by "...". */
  ghost predicate IsShortened(chunk: string, title: string)
  {
    && |chunk| > MaxLen
    && |title| >= |Ellipsis| && title[|title| - |Ellipsis|..] == Ellipsis
    && var cut := |title| - |Ellipsis|;
       && MinCut < cut <= MaxLen
       && title[..cut] == chunk[..cut]
       && (cut < MaxLen ==> chunk[cut] == ' ')
       && (forall i :: cut < i < MaxLen ==> chunk[i] != ' ')
       && (cut == MaxLen ==> forall i :: MinCut < i < MaxLen ==> chunk[i] != ' ')
  }

  /** The cut of a first chunk longer than 60 characters. */
  function Shorten(chunk: string): (title: string)
    requires |chunk| > MaxLen
    ensures IsShortened(chunk, title)
  {
    var shortened := chunk[..MaxLen];
    var lastSpace := LastSpace(shortened);
    if lastSpace > MinCut then
      var title := shortened[..lastSpace] + Ellipsis;
      assert title[..lastSpace] == chunk[..lastSpace];
      assert forall i :: lastSpace < i < MaxLen ==> chunk[i] == shortened[i];
      title
    else
      var title := shortened + Ellipsis;
      assert title[..MaxLen] == chunk[..MaxLen];
      assert forall i :: MinCut < i < MaxLen ==> chunk[i] == shortened[i];
      title
  }

  /** `generateChatTitleFromMessage`. */
  function GenerateTitle(content: string): (title: string)
    ensures 0 < |title| <= MaxLen + |Ellipsis|
    ensures Clean(content) == [] ==> title == Fallback
    ensures Clean(content) != [] && |FirstChunk(Clean(content))| <= MaxLen ==>
      title == FirstChunk(Clean(content))
    ensures Clean(content) != [] && |FirstChunk(Clean(content))| > MaxLen ==>
      IsShortened(FirstChunk(Clean(content)), title)
  {
    var cleaned := Clean(content);
    if cleaned == [] then Fallback
    else
      var chunk := FirstChunk(cleaned);
      if |chunk| <= MaxLen then chunk else Shorten(chunk)
  }

  predicate HasNoMarks(s: string)
  {
    forall i :: 0 <= i < |s| ==> !IsMarkdownMark(s[i])
  }

  lemma ShortenHasNoMarks(chunk: string)
    requires |chunk| > MaxLen && HasNoMarks(chunk)
    ensures HasNoMarks(Shorten(chunk))
  {
    var title := Shorten(chunk);
    var cut := |title| - |Ellipsis|;
    forall i | 0 <= i < |title| ensures !IsMarkdownMark(title[i]) {
      if i < cut {
        assert title[i] == title[..cut][i] == chunk[..cut][i];
      } else {
        assert title[i] == Ellipsis[i - cut];
      }
    }
  }

  lemma FallbackHasNoMarks()
    ensures HasNoMarks(Fallback)
  {
    forall i | 0 <= i < |Fallback| ensures !IsMarkdownMark(Fallback[i]) { }
  }

  /** The title never carries markdown marks. */
  lemma TitleHasNoMarkdown(content: string)
    ensures HasNoMarks(GenerateTitle(content))
  {
    var cleaned := Clean(content);
    if cleaned == [] {
      FallbackHasNoMarks();
    } else {
      var chunk := FirstChunk(cleaned);
      FirstChunkIsClean(cleaned);
      if |chunk| > MaxLen {
        ShortenHasNoMarks(chunk);
      }
    }
  }

  // ---- what the cleaning leaves alone, and what it removes entirely ----

  /** Every character `StripCodeFences` produces is a space or comes from its input. */
  lemma {:induction false} StripCodeFencesChars(s: string)
    ensures forall c :: c in StripCodeFences(s) ==> c == ' ' || c in s
    decreases |s|
  {
    if |s| >= 3 {
      if FenceAt(s, 0) && FindFence(s, 3) >= 0 {
        var rest := s[FindFence(s, 3) + 3..];
        StripCodeFencesChars(rest);
        assert forall c :: c in rest ==> c in s;
      } else {
        StripCodeFencesChars(s[1..]);
        assert forall c :: c in s[1..] ==> c in s;
      }
    }
  }

  /** Content made only of markdown marks and whitespace has no title of its
      own and gets the fallback. */
  lemma OnlyMarkupGivesFallback(content: string)
    requires forall i :: 0 <= i < |content| ==> IsMarkdownMark(content[i]) || IsWhitespace(content[i])
    ensures GenerateTitle(content) == Fallback
  {
    var stripped := StripCodeFences(content);
    StripCodeFencesChars(content);
    var blanked := BlankMarkdown(stripped);
    forall i | 0 <= i < |blanked| ensures IsWhitespace(blanked[i]) {
      if blanked[i] != ' ' {
        assert blanked[i] == stripped[i] && stripped[i] in stripped;
      }
    }
    assert forall c :: c in blanked ==> IsWhitespace(c);
    var collapsed := CollapseWhitespace(blanked);
    assert forall i :: 0 <= i < |collapsed| ==> collapsed[i] == ' ' || collapsed[i] in blanked;
    assert Clean(content) == Trim(collapsed);
  }

  lemma CleanSpaceStart(s: string)
    requires IsCleanText(s) && s != [] && IsWhitespace(s[0])
    ensures s[0] == ' ' && TrimStart(s) == s[1..] && s == " " + s[1..]
  {
    assert SpacesOnly(s) && SingleSpaced(s);
    assert s[0] == ' ';
    if |s| > 1 {
      assert s[1] != ' ';
      assert !IsWhitespace(s[1]);
      assert TrimStart(s[1..]) == s[1..];
    }
    assert TrimStart(s) == TrimStart(s[1..]);
  }

  /** Clean text is its own whitespace collapse. */
  lemma {:induction false} CollapseCleanText(s: string)
    requires IsCleanText(s)
    ensures CollapseWhitespace(s) == s
    decreases |s|
  {
    if s != [] {
      CleanTextSlice(s, 1, |s|);
      CollapseCleanText(s[1..]);
      if IsWhitespace(s[0]) {
        CleanSpaceStart(s);
        assert CollapseWhitespace(s) == " " + CollapseWhitespace(s[1..]);
      } else {
        assert CollapseWhitespace(s) == [s[0]] + CollapseWhitespace(s[1..]);
        assert s == [s[0]] + s[1..];
      }
    }
  }

  /** A short plain sentence (clean, no terminator, no space at either end)
      is its own title. */
  lemma PlainSentenceIsItsOwnTitle(s: string)
    requires IsCleanText(s) && s != [] && s[0] != ' ' && s[|s| - 1] != ' '
    requires forall i :: 0 <= i < |s| ==> !IsTerminator(s[i])
    requires |s| <= MaxLen
    ensures GenerateTitle(s) == s
  {
    forall i | 0 <= i ensures !FenceAt(s, i) {
      if i + 3 <= |s| {
        assert s[i..i + 3][0] == s[i];
        assert !IsMarkdownMark(s[i]);
      }
    }
    StripCodeFencesNoFence(s);
    assert BlankMarkdown(s) == s;
    CollapseCleanText(s);
    assert !IsWhitespace(s[0]) && !IsWhitespace(s[|s| - 1]);
    assert Clean(s) == s;
    assert BeforeTerminator(s) == s;
    assert FirstChunk(s) == s;
  }
}
