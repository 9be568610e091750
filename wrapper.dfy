/** Greedy pixel-width line wrapping (tools/generate_text.py, `process_lines`
    and `split_word`). The output is the list of byte strings the generator
    yields: words, separator spaces and NUL line terminators. */
module LineWrapper {
  import opened ByteSeqs
  import opened Sanitizer

  /** Pixels in one screen line: 20 tiles of 8 pixels. */
  const LineMax: nat := 20 * 8
  /** The 20 empty lines that end the text. */
  const Padding: seq<Byte> := seq(20, _ => Nul)

  /** `widths[ord(c) - 32]`: the table starts at the space character. The
      wrapper only measures bytes in 0x20..0x7F against a table of at least 96
      entries; outside that range the width is taken as 0. */
  function CharWidth(widths: seq<nat>, c: Byte): nat
  {
    if Space <= c && c - Space < |widths| then widths[c - Space] else 0
  }

  /** `sum(widths[ord(c) - 32] for c in s)`: the pixel width of a byte string. */
  function Width(widths: seq<nat>, s: seq<Byte>): nat
  {
    if s == [] then 0 else Width(widths, s[..|s| - 1]) + CharWidth(widths, s[|s| - 1])
  }

  lemma {:induction false} WidthAppend(widths: seq<nat>, a: seq<Byte>, b: seq<Byte>)
    ensures Width(widths, a + b) == Width(widths, a) + Width(widths, b)
    decreases |b|
  {
    if b == [] {
      assert a + b == a;
    } else {
      assert (a + b)[..|a + b| - 1] == a + b[..|b| - 1];
      WidthAppend(widths, a, b[..|b| - 1]);
    }
  }

  /** A string of n copies of one character is n times as wide as the character. */
  lemma {:induction false} WidthRepeat(widths: seq<nat>, c: Byte, n: nat)
    ensures Width(widths, seq(n, _ => c)) == n * CharWidth(widths, c)
  {
    if n > 0 {
      WidthRepeat(widths, c, n - 1);
      assert seq(n, _ => c)[..n - 1] == seq(n - 1, _ => c);
    }
  }

  // ---------------------------------------------------------------------
  // split_word

  /** Index of the first character of `word` that cannot share a line with a
      dash (its own width plus the dash's exceeds LineMax), or |word| if every
      character can. */
  function FirstWithoutDashRoom(widths: seq<nat>, word: seq<Byte>): (k: nat)
    ensures k <= |word|
    ensures forall i | 0 <= i < k :: CharWidth(widths, word[i]) + CharWidth(widths, Dash) <= LineMax
    ensures k < |word| ==> CharWidth(widths, word[k]) + CharWidth(widths, Dash) > LineMax
  {
    if word == [] || CharWidth(widths, word[0]) + CharWidth(widths, Dash) > LineMax then 0
    else 1 + FirstWithoutDashRoom(widths, word[1..])
  }

  /** `split_word` as written: its running `length` is never increased, so the
      split point is the first character whose OWN width plus the dash's
      exceeds the line; the run stops (a failed assert) when there is no such
      character or it is the first one. */
  method SplitWord(widths: seq<nat>, word: seq<Byte>) returns (r: Result<(seq<Byte>, seq<Byte>)>)
    requires |widths| >= 96 && Sanitized(word)
    ensures r.Ok? <==> 0 < FirstWithoutDashRoom(widths, word) < |word|
    ensures r.Ok? ==> var k := FirstWithoutDashRoom(widths, word);
                      r.value == (word[..k] + [Dash], word[k..])
    ensures r.Ok? ==> r.value.0[..|r.value.0| - 1] + r.value.1 == word
                      && r.value.0[|r.value.0| - 1] == Dash
  {
    var dashLen := widths[Dash - Space];
    var length := 0;
    var splitAt := 0;
    var i := 0;
    while i < |word|
      invariant 0 <= i <= |word|
      invariant forall j | 0 <= j < i :: CharWidth(widths, word[j]) + dashLen <= LineMax
    {
      assert word[i] in word;
      var charLength := widths[word[i] - Space];
      if length + charLength + dashLen > LineMax {
        splitAt := i;
        break;
      }
      i := i + 1;
    }
    FirstWithoutDashRoomIs(widths, word, i);
    if i == |word| {
      return Fail("word was too long but counting characters wasn't");
    }
    if !(0 < splitAt < |word|) {
      return Fail("assertion 0 < split_at < len(word) failed");
    }
    var head := word[..splitAt] + [Dash];
    assert head[..|head| - 1] == word[..splitAt];
    assert word[..splitAt] + word[splitAt..] == word;
    return Ok((head, word[splitAt..]));
  }

  /** The first index that lacks room for a dash is pinned down by the two
      facts a left-to-right scan establishes. */
  lemma FirstWithoutDashRoomIs(widths: seq<nat>, word: seq<Byte>, i: nat)
    requires i <= |word|
    requires forall j | 0 <= j < i :: CharWidth(widths, word[j]) + CharWidth(widths, Dash) <= LineMax
    requires i < |word| ==> CharWidth(widths, word[i]) + CharWidth(widths, Dash) > LineMax
    ensures FirstWithoutDashRoom(widths, word) == i
  {
  }

  /** A prefix is never wider than the whole. */
  lemma WidthPrefix(widths: seq<nat>, s: seq<Byte>, i: nat, j: nat)
    requires i <= j <= |s|
    ensures Width(widths, s[..i]) <= Width(widths, s[..j])
  {
    assert s[..j] == s[..i] + s[i..j];
    WidthAppend(widths, s[..i], s[i..j]);
  }

  /** Every character of `w` fits on a line next to a dash. */
  predicate DashFits(widths: seq<nat>, w: seq<Byte>)
  {
    forall c | c in w :: CharWidth(widths, c) + CharWidth(widths, Dash) <= LineMax
  }

  /** In a font whose glyphs are at most half a line wide, every character of
      every line leaves room for a dash. */
  lemma NarrowFontFits(widths: seq<nat>, line: seq<Byte>)
    requires |widths| >= 96 && forall k | 0 <= k < |widths| :: 2 * widths[k] <= LineMax
    ensures DashFits(widths, line)
  {
    forall c | c in line ensures CharWidth(widths, c) + CharWidth(widths, Dash) <= LineMax {
      if Space <= c && c - Space < |widths| {
        assert 2 * widths[c - Space] <= LineMax;
      }
      assert 2 * widths[Dash - Space] <= LineMax;
    }
  }

  /** `split_word` as its comments describe it: the running width is
      accumulated, so the split point is where the prefix, its next character
      and a dash would no longer fit on a line. */
  method SplitWordIntended(widths: seq<nat>, word: seq<Byte>) returns (r: Result<(seq<Byte>, seq<Byte>)>)
    requires |widths| >= 96 && Sanitized(word)
    ensures r.Ok? <==> |word| > 0 && Width(widths, word[..1]) + CharWidth(widths, Dash) <= LineMax
                       && Width(widths, word) + CharWidth(widths, Dash) > LineMax
    ensures r.Ok? ==> var k := |r.value.0| - 1;
                      0 < k < |word| && r.value == (word[..k] + [Dash], word[k..])
                      && Width(widths, word[..k]) + CharWidth(widths, Dash) <= LineMax
                      && Width(widths, word[..k + 1]) + CharWidth(widths, Dash) > LineMax
    ensures r.Ok? ==> r.value.0[..|r.value.0| - 1] + r.value.1 == word
                      && r.value.0[|r.value.0| - 1] == Dash
  {
    var dashLen := widths[Dash - Space];
    var length := 0;
    var splitAt := 0;
    var i := 0;
    while i < |word|
      invariant 0 <= i <= |word|
      invariant length == Width(widths, word[..i])
      invariant i > 0 ==> length + dashLen <= LineMax
    {
      assert word[i] in word;
      var charLength := widths[word[i] - Space];
      assert word[..i + 1][..i] == word[..i];
      if length + charLength + dashLen > LineMax {
        splitAt := i;
        break;
      }
      length := length + charLength;
      i := i + 1;
    }
    if i == |word| {
      assert word[..i] == word;
      if i > 0 {
        WidthPrefix(widths, word, 1, i);
      }
      return Fail("word was too long but counting characters wasn't");
    }
    WidthPrefix(widths, word, i + 1, |word|);
    assert word[..|word|] == word;
    if !(0 < splitAt < |word|) {
      return Fail("assertion 0 < split_at < len(word) failed");
    }
    WidthPrefix(widths, word, 1, i);
    var head := word[..splitAt] + [Dash];
    assert head[..|head| - 1] == word[..splitAt];
    assert word[..splitAt] + word[splitAt..] == word;
    return Ok((head, word[splitAt..]));
  }

  /** A word wider than a line whose characters each fit next to a dash always
      has an intended split point. */
  lemma IntendedSplitExists(widths: seq<nat>, word: seq<Byte>)
    requires DashFits(widths, word) && Width(widths, word) > LineMax
    ensures |word| > 0 && Width(widths, word[..1]) + CharWidth(widths, Dash) <= LineMax
            && Width(widths, word) + CharWidth(widths, Dash) > LineMax
  {
    assert word[0] in word;
    WidthSingle(widths, word[0]);
    assert word[..1] == [word[0]];
  }

  /** With every glyph 8 pixels wide a 21-letter word is wider than a line, yet
      every letter leaves room for a dash, so the as-written SplitWord finds no
      split point and fails on it. */
  lemma LongWordHasNoSplitPoint()
    ensures var widths := seq(96, _ => 8); var word := seq(21, _ => 0x61);
            Width(widths, word) > LineMax && FirstWithoutDashRoom(widths, word) == |word|
  {
    var widths: seq<nat> := seq(96, _ => 8);
    WidthRepeat(widths, 0x61, 21);
  }

  /** With every glyph 10 pixels wide, the intended split of a 20-letter word
      keeps 15 letters and the dash on the line and carries 5 letters over. */
  method IntendedSplitExample() returns (r: Result<(seq<Byte>, seq<Byte>)>)
    ensures r == Ok((seq(15, _ => 0x61) + [Dash], seq(5, _ => 0x61)))
  {
    var widths: seq<nat> := seq(96, _ => 10);
    var word: seq<Byte> := seq(20, _ => 0x61);
    WidthRepeat(widths, 0x61, 20);
    WidthRepeat(widths, 0x61, 1);
    assert word[..1] == seq(1, _ => 0x61);
    r := SplitWordIntended(widths, word);
    var k := |r.value.0| - 1;
    assert word[..k] == seq(k, _ => 0x61);
    assert word[..k + 1] == seq(k + 1, _ => 0x61);
    WidthRepeat(widths, 0x61, k);
    WidthRepeat(widths, 0x61, k + 1);
    assert k == 15;
    RepeatSlices(0x61, 20, 15);
  }

  lemma RepeatSlices(c: Byte, n: nat, k: nat)
    requires k <= n
    ensures seq(n, _ => c)[..k] == seq(k, _ => c) && seq(n, _ => c)[k..] == seq(n - k, _ => c)
  {
  }

  // ---------------------------------------------------------------------
  // process_lines

  /** Every byte of an output stream is a terminator or a sanitized character. */
  predicate Clean(s: seq<Byte>)
  {
    forall b | b in s :: b == Nul || Space <= b <= Invalid
  }

  /** The row being filled: the text after the last terminator. */
  function LastRow(s: seq<Byte>): seq<Byte>
  {
    var rows := Split(s, Nul);
    rows[|rows| - 1]
  }

  /** No output row starts with a separator: a separator is only emitted mid-line. */
  predicate NoLeadingSeparator(s: seq<Byte>)
  {
    forall k | 0 <= k < |Split(s, Nul)| :: Split(s, Nul)[k] == [] || Split(s, Nul)[k][0] != Space
  }

  /** The text of a row before its first separator. */
  function LeadingWord(s: seq<Byte>): seq<Byte>
  {
    if s == [] || s[0] == Space then [] else [s[0]] + LeadingWord(s[1..])
  }

  /** The width of the separator: the first entry of the table. */
  function SpaceLen(widths: seq<nat>): nat
  {
    CharWidth(widths, Space)
  }

  /** A row fits in one screen line. */
  ghost predicate RowFits(widths: seq<nat>, row: seq<Byte>)
  {
    Width(widths, row) <= LineMax
  }

  /** A row was ended only because it held something and the first word of the
      next row, with its separator, would not have fitted after it. */
  ghost predicate BreakForced(widths: seq<nat>, row: seq<Byte>, next: seq<Byte>)
  {
    Width(widths, row) > 0
    && Width(widths, row) + SpaceLen(widths) + Width(widths, LeadingWord(next)) > LineMax
  }

  /** Greedy wrapping of a list of rows: every row fits, and every break but
      the last row's was forced. */
  ghost predicate GreedyRows(widths: seq<nat>, rows: seq<seq<Byte>>)
  {
    (forall k | 0 <= k < |rows| :: RowFits(widths, rows[k]))
    && (forall k | 0 <= k < |rows| - 1 :: BreakForced(widths, rows[k], rows[k + 1]))
  }

  /** Greedy wrapping of a stream: its rows, the text between terminators, are. */
  ghost predicate Greedy(widths: seq<nat>, body: seq<Byte>)
  {
    GreedyRows(widths, Split(body, Nul))
  }

  /** The bytes that carry text: everything but terminators and separators. */
  function Visible(s: seq<Byte>): seq<Byte>
  {
    if s == [] then []
    else Visible(s[..|s| - 1]) + (if s[|s| - 1] == Nul || s[|s| - 1] == Space then [] else [s[|s| - 1]])
  }

  /** The line holds no word wider than a whole screen line, so no word is hyphenated. */
  ghost predicate NoWideWords(widths: seq<nat>, line: seq<Byte>)
  {
    forall w | w in Split(line, Space) :: Width(widths, w) <= LineMax
  }

  /** What the wrapper yields for one sanitized input line: clean bytes ending
      in a terminator, no row opening with a separator and, when no word needs
      hyphenating, the reference wrapping of the line's words, whose rows are
      greedy and keep all the text of the line. */
  ghost predicate LineOutput(widths: seq<nat>, line: seq<Byte>, seg: seq<Byte>)
  {
    seg != [] && seg[|seg| - 1] == Nul && Clean(seg) && NoLeadingSeparator(seg)
    && (NoWideWords(widths, line) ==>
          seg == Flatten(WrapWords(widths, Split(line, Space)).0) + [Nul]
          && Greedy(widths, seg[..|seg| - 1]) && Visible(seg) == Visible(line))
  }

  /** The reference wrapping of words that each fit a line, as the items the
      wrapper yields for them, and the width of the last row. A word goes
      straight onto a row of width 0; otherwise it follows a separator when it
      still fits after the row and the separator, and a terminator when not. */
  function WrapWords(widths: seq<nat>, words: seq<seq<Byte>>): (seq<seq<Byte>>, nat)
  {
    if words == [] then ([], 0)
    else
      var prev := WrapWords(widths, words[..|words| - 1]);
      var w := words[|words| - 1];
      var length := Width(widths, w);
      if prev.1 == 0 then (prev.0 + [w], length)
      else if prev.1 + SpaceLen(widths) + length > LineMax then (prev.0 + [[Nul]] + [w], length)
      else (prev.0 + [[Space]] + [w], prev.1 + SpaceLen(widths) + length)
  }

  /** The reference wrapping is greedy, keeps the words' text in order, and its
      position is the width of its last row. */
  lemma {:induction false} WrapWordsGreedy(widths: seq<nat>, words: seq<seq<Byte>>)
    requires forall k | 0 <= k < |words| :: Nul !in words[k] && Space !in words[k] && Width(widths, words[k]) <= LineMax
    ensures WrappedSoFar(widths, words, |words|, Flatten(WrapWords(widths, words).0), WrapWords(widths, words).1)
    decreases |words|
  {
    if words == [] {
      assert Split([], Nul) == [[]];
    } else {
      var n := |words| - 1;
      var init := words[..n];
      assert forall k | 0 <= k < n :: init[k] == words[k];
      WrapWordsGreedy(widths, init);
      assert init[..n] == words[..n];
      WrapWordsStep(widths, words);
    }
  }

  /** Adding one word to the reference wrapping keeps it greedy. */
  lemma WrapWordsStep(widths: seq<nat>, words: seq<seq<Byte>>)
    requires words != []
    requires var w := words[|words| - 1]; Nul !in w && Space !in w && Width(widths, w) <= LineMax
    requires var prev := WrapWords(widths, words[..|words| - 1]);
             WrappedSoFar(widths, words, |words| - 1, Flatten(prev.0), prev.1)
    ensures WrappedSoFar(widths, words, |words|, Flatten(WrapWords(widths, words).0), WrapWords(widths, words).1)
  {
    var n := |words| - 1;
    var prev := WrapWords(widths, words[..n]);
    var w := words[n];
    var out := Flatten(prev.0);
    var pos := prev.1;
    var broke := pos != 0 && pos + SpaceLen(widths) + Width(widths, w) > LineMax;
    var separated := pos != 0 && !broke;
    EmitProgress(widths, words, n, out, pos, w, broke, separated);
    if broke {
      FlattenSnoc(out, prev.0, [Nul]);
      FlattenSnoc(out + [Nul], prev.0 + [[Nul]], w);
    } else if separated {
      FlattenSnoc(out, prev.0, [Space]);
      FlattenSnoc(out + [Space], prev.0 + [[Space]], w);
    } else {
      FlattenSnoc(out, prev.0, w);
    }
  }

  /** A line of two words that each fit a line, the first of some width, is
      the first word, then a separator if the second still fits after it or a
      terminator if not, then the second word and the line's terminator. */
  lemma TwoWordLine(widths: seq<nat>, w1: seq<Byte>, w2: seq<Byte>, seg: seq<Byte>)
    requires Space !in w1 && Space !in w2
    requires 0 < Width(widths, w1) <= LineMax && Width(widths, w2) <= LineMax
    ensures LineOutput(widths, w1 + [Space] + w2, seg)
            ==> seg == w1 + [if Width(widths, w1) + SpaceLen(widths) + Width(widths, w2) > LineMax then Nul else Space]
                      + w2 + [Nul]
  {
    var ws: seq<seq<Byte>> := [w1, w2];
    assert ws[..1] == [w1];
    assert Join(ws, Space) == w1 + [Space] + w2;
    SplitJoin(ws, Space);
    assert NoWideWords(widths, w1 + [Space] + w2);
    assert [w1][..0] == [];
    var b: Byte := if Width(widths, w1) + SpaceLen(widths) + Width(widths, w2) > LineMax then Nul else Space;
    assert WrapWords(widths, [w1]) == ([] + [w1], Width(widths, w1));
    assert WrapWords(widths, ws).0 == [w1] + [[b]] + [w2];
    FlattenSnoc(w1, [w1], [b]);
    FlattenSnoc(w1 + [b], [w1] + [[b]], w2);
  }

  /** With every glyph 8 pixels wide, "ab cd" is wrapped as the two words
      with one separator between them. */
  lemma SeparatorExample(seg: seq<Byte>)
    ensures LineOutput(seq(96, _ => 8), [0x61, 0x62, Space, 0x63, 0x64], seg)
            ==> seg == [0x61, 0x62, Space, 0x63, 0x64, Nul]
  {
    var widths: seq<nat> := seq(96, _ => 8);
    var ab: seq<Byte> := [0x61, 0x62];
    var cd: seq<Byte> := [0x63, 0x64];
    WidthPair(widths, 0x61, 0x62);
    WidthPair(widths, 0x63, 0x64);
    assert Width(widths, ab) == 16 && Width(widths, cd) == 16;
    TwoWordLine(widths, ab, cd, seg);
    assert ab + [Space] + cd == [0x61, 0x62, Space, 0x63, 0x64];
  }

  lemma WidthPair(widths: seq<nat>, c1: Byte, c2: Byte)
    ensures Width(widths, [c1, c2]) == CharWidth(widths, c1) + CharWidth(widths, c2)
  {
    WidthSingle(widths, c1);
    WidthSingle(widths, c2);
    WidthAppend(widths, [c1], [c2]);
    assert [c1] + [c2] == [c1, c2];
  }

  /** With every glyph 8 pixels wide, twenty letters fill a line exactly, so
      the word after them opens the next row. */
  lemma BreakExample(seg: seq<Byte>)
    ensures LineOutput(seq(96, _ => 8), seq(20, _ => 0x61) + [Space, 0x62], seg)
            ==> seg == seq(20, _ => 0x61) + [Nul, 0x62, Nul]
  {
    var widths: seq<nat> := seq(96, _ => 8);
    var a20: seq<Byte> := seq(20, _ => 0x61);
    WidthRepeat(widths, 0x61, 20);
    WidthSingle(widths, 0x62);
    assert Space !in a20;
    TwoWordLine(widths, a20, [0x62], seg);
    assert a20 + [Space] + [0x62] == a20 + [Space, 0x62];
  }

  /** The output so far is well shaped: clean bytes, no row opening with a
      separator, and a non-empty current row whenever the position is not 0. */
  predicate Shaped(out: seq<Byte>, linePos: nat)
  {
    Clean(out) && NoLeadingSeparator(out) && (linePos != 0 ==> LastRow(out) != [])
  }

  /** While no word needs hyphenating, the output so far wraps the first `done`
      words greedily and `linePos` is the width of the row being filled. */
  ghost predicate WrappedSoFar(widths: seq<nat>, words: seq<seq<Byte>>, done: nat, out: seq<Byte>, linePos: nat)
  {
    done <= |words| && linePos == Width(widths, LastRow(out)) && Greedy(widths, out)
    && Visible(out) == Flatten(words[..done])
  }

  /** The output after one step of the loop: a terminator or a separator if
      one was emitted, then the word. */
  function Emitted(out: seq<Byte>, word: seq<Byte>, broke: bool, separated: bool): seq<Byte>
  {
    if broke then out + [Nul] + word else if separated then out + [Space] + word else out + word
  }

  /** What holds before each iteration of the wrapping loop: the queued words
      are sanitized and separator-free, and each leaves room for a dash next to
      every character when the line does; the output is well shaped; and while
      no word needs hyphenating, the queue holds the words of the line after the
      first `done`, and the items and position are the reference wrapping of
      those `done` words. */
  ghost predicate WrapInvariant(widths: seq<nat>, line: seq<Byte>, words: seq<seq<Byte>>, done: nat,
                                chunks: seq<seq<Byte>>, out: seq<Byte>, linePos: nat)
  {
    (forall w | w in words :: Sanitized(w) && Space !in w && (DashFits(widths, line) ==> DashFits(widths, w)))
    && Shaped(out, linePos)
    && (NoWideWords(widths, line) ==>
          done <= |Split(line, Space)| && words == Split(line, Space)[done..]
          && (chunks, linePos) == WrapWords(widths, Split(line, Space)[..done]))
  }

  /** The inner `while words` loop of `process_lines`: wraps one sanitized line
      and yields its pieces, ending with the line's terminator. A word wider
      than a line is hyphenated with the corrected split, so the line is wrapped
      whenever no word is wider than a line or every character fits next to a
      dash. */
  method WrapLine(widths: seq<nat>, line: seq<Byte>) returns (r: Result<seq<seq<Byte>>>)
    requires |widths| >= 96 && Sanitized(line)
    ensures r.Ok? ==> LineOutput(widths, line, Flatten(r.value))
    ensures NoWideWords(widths, line) ==> r.Ok? && r.value == WrapWords(widths, Split(line, Space)).0 + [[Nul]]
    ensures DashFits(widths, line) ==> r.Ok?
  {
    var spaceLen := widths[0];
    var words := Split(line, Space);
    ghost var done := 0;
    var chunks: seq<seq<Byte>> := [];
    ghost var out: seq<Byte> := [];
    var linePos: nat := 0;
    WrapStart(widths, line);
    while words != []
      invariant out == Flatten(chunks)
      invariant WrapInvariant(widths, line, words, done, chunks, out, linePos)
      decreases |words|, if words == [] then 0 else |words[0]|
    {
      ghost var words0, chunks0, out0, pos0 := words, chunks, out, linePos;
      ghost var broke, separated, hyphenated := false, false, false;
      ghost var rest: seq<Byte> := [];
      var word := words[0];
      words := words[1..];
      var length := Width(widths, word);
      var wordPos := if linePos != 0 then linePos + spaceLen else 0;
      if wordPos + length > LineMax {
        if linePos != 0 {
          FlattenSnoc(out, chunks, [Nul]);
          chunks := chunks + [[Nul]];
          out := out + [Nul];
          linePos := 0;
          broke := true;
        }
        if length > LineMax {
          SplitAttempt(widths, line, words0, done, chunks0, out0, pos0);
          var parts := SplitWordIntended(widths, word);
          if parts.Fail? {
            return Fail(parts.error);
          }
          word := parts.value.0;
          words := [parts.value.1] + words;
          rest := parts.value.1;
          hyphenated := true;
        }
      } else if linePos != 0 {
        FlattenSnoc(out, chunks, [Space]);
        chunks := chunks + [[Space]];
        out := out + [Space];
        linePos := linePos + spaceLen;
        separated := true;
      }
      FlattenSnoc(out, chunks, word);
      chunks := chunks + [word];
      out := out + word;
      linePos := linePos + length;
      ghost var done' := if NoWideWords(widths, line) then done + 1 else done;
      WrapStep(widths, line, words0, done, chunks0, out0, pos0, word, rest, hyphenated, broke, separated,
               words, done', chunks, out, linePos);
      done := done';
    }
    FlattenSnoc(out, chunks, [Nul]);
    chunks := chunks + [[Nul]];
    FinishLine(widths, line, done, chunks[..|chunks| - 1], out, linePos);
    return Ok(chunks);
  }

  /** Before the first iteration the queue is the words of the line and the output is empty. */
  lemma WrapStart(widths: seq<nat>, line: seq<Byte>)
    requires Sanitized(line)
    ensures WrapInvariant(widths, line, Split(line, Space), 0, [], [], 0)
  {
    WordsOfLine(line);
    assert Split([], Nul) == [[]];
    var all := Split(line, Space);
    SplitPieces(line, Space);
    forall w | w in all && DashFits(widths, line) ensures DashFits(widths, w) {
      var k :| 0 <= k < |all| && all[k] == w;
    }
    assert all[0..] == all && all[..0] == [];
  }

  /** A word wider than a line rules out NoWideWords and, when every character
      of the line fits next to a dash, has a split point. */
  lemma SplitAttempt(widths: seq<nat>, line: seq<Byte>, words: seq<seq<Byte>>, done: nat,
                     chunks: seq<seq<Byte>>, out: seq<Byte>, pos: nat)
    requires WrapInvariant(widths, line, words, done, chunks, out, pos) && words != []
    requires Width(widths, words[0]) > LineMax
    ensures !NoWideWords(widths, line)
    ensures Sanitized(words[0])
    ensures DashFits(widths, line) ==>
              |words[0]| > 0 && Width(widths, words[0][..1]) + CharWidth(widths, Dash) <= LineMax
              && Width(widths, words[0]) + CharWidth(widths, Dash) > LineMax
  {
    assert words[0] in words;
    if DashFits(widths, line) {
      IntendedSplitExists(widths, words[0]);
    }
  }

  /** One iteration of the wrapping loop keeps its invariant. */
  lemma WrapStep(widths: seq<nat>, line: seq<Byte>, words: seq<seq<Byte>>, done: nat, chunks: seq<seq<Byte>>,
                 out: seq<Byte>, pos: nat, word: seq<Byte>, rest: seq<Byte>, hyphenated: bool, broke: bool,
                 separated: bool, words': seq<seq<Byte>>, done': nat, chunks': seq<seq<Byte>>, out': seq<Byte>,
                 pos': nat)
    requires WrapInvariant(widths, line, words, done, chunks, out, pos) && words != []
    requires var length := Width(widths, words[0]);
             var wordPos := if pos != 0 then pos + SpaceLen(widths) else 0;
             && broke == (wordPos + length > LineMax && pos != 0)
             && separated == (wordPos + length <= LineMax && pos != 0)
             && hyphenated == (wordPos + length > LineMax && length > LineMax)
    requires hyphenated ==> |word| >= 2 && word[..|word| - 1] + rest == words[0] && word[|word| - 1] == Dash
    requires !hyphenated ==> word == words[0]
    requires words' == if hyphenated then [rest] + words[1..] else words[1..]
    requires done' == if NoWideWords(widths, line) then done + 1 else done
    requires chunks' == if broke then chunks + [[Nul]] + [word] else if separated then chunks + [[Space]] + [word]
                        else chunks + [word]
    requires out' == Emitted(out, word, broke, separated)
    requires pos' == (if broke then 0 else if separated then pos + SpaceLen(widths) else pos) + Width(widths, words[0])
    ensures WrapInvariant(widths, line, words', done', chunks', out', pos')
  {
    var whole := words[0];
    assert whole in words;
    if hyphenated {
      SplitKeepsWords(word, rest, whole);
    }
    forall w | w in words' ensures Sanitized(w) && Space !in w && (DashFits(widths, line) ==> DashFits(widths, w)) {
      if w != rest || !hyphenated {
        assert w in words[1..];
      }
    }
    assert Nul !in word by {
      forall b | b in word ensures b != Nul { }
    }
    EmitShape(out, pos, word, broke, separated);
    if NoWideWords(widths, line) {
      var all := Split(line, Space);
      assert whole == all[done] && whole in all;
      assert all[done + 1..] == all[done..][1..];
      WrapWordsNext(widths, all, done, chunks, pos, broke, separated, chunks', pos');
    }
  }

  /** Taking the next word of the line extends the reference wrapping by one
      word, as the loop does. */
  lemma WrapWordsNext(widths: seq<nat>, all: seq<seq<Byte>>, done: nat, chunks: seq<seq<Byte>>, pos: nat,
                      broke: bool, separated: bool, chunks': seq<seq<Byte>>, pos': nat)
    requires done < |all| && (chunks, pos) == WrapWords(widths, all[..done])
    requires var length := Width(widths, all[done]);
             && length <= LineMax
             && broke == (pos != 0 && pos + SpaceLen(widths) + length > LineMax)
             && separated == (pos != 0 && pos + SpaceLen(widths) + length <= LineMax)
    requires chunks' == if broke then chunks + [[Nul]] + [all[done]]
                        else if separated then chunks + [[Space]] + [all[done]]
                        else chunks + [all[done]]
    requires pos' == (if broke then 0 else if separated then pos + SpaceLen(widths) else pos) + Width(widths, all[done])
    ensures (chunks', pos') == WrapWords(widths, all[..done + 1])
  {
    assert all[..done + 1][..done] == all[..done];
    assert all[..done + 1][done] == all[done];
  }

  /** The words of a sanitized line are sanitized and hold no separator. */
  lemma WordsOfLine(line: seq<Byte>)
    requires Sanitized(line)
    ensures forall w | w in Split(line, Space) :: Sanitized(w) && Space !in w
  {
    var words := Split(line, Space);
    SplitPieces(line, Space);
    forall w | w in words ensures Sanitized(w) && Space !in w {
      var k :| 0 <= k < |words| && words[k] == w;
      forall b | b in w ensures Space <= b <= Invalid {
        assert b in line;
      }
    }
  }

  /** One step keeps the output well shaped. */
  lemma EmitShape(out: seq<Byte>, pos: nat, word: seq<Byte>, broke: bool, separated: bool)
    requires Shaped(out, pos) && Sanitized(word) && Space !in word
    requires separated ==> pos != 0 && !broke
    ensures Clean(Emitted(out, word, broke, separated))
    ensures NoLeadingSeparator(Emitted(out, word, broke, separated))
    ensures word != [] || (!broke && pos != 0) ==> LastRow(Emitted(out, word, broke, separated)) != []
  {
    assert Nul !in word by {
      forall b | b in word ensures b != Nul { }
    }
    if broke {
      EmitBreak(out);
      EmitText(out + [Nul], word);
    } else if separated {
      EmitText(out, [Space]);
      EmitText(out + [Space], word);
    } else {
      EmitText(out, word);
    }
  }

  /** One step keeps the output a greedy wrapping of the words taken so far. */
  lemma EmitProgress(widths: seq<nat>, words: seq<seq<Byte>>, done: nat, out: seq<Byte>, pos: nat,
                     word: seq<Byte>, broke: bool, separated: bool)
    requires WrappedSoFar(widths, words, done, out, pos) && done < |words| && word == words[done]
    requires Nul !in word && Space !in word && Width(widths, word) <= LineMax
    requires broke ==> pos != 0 && pos + SpaceLen(widths) + Width(widths, word) > LineMax
    requires separated ==> !broke && pos != 0 && pos + SpaceLen(widths) + Width(widths, word) <= LineMax
    requires !broke && !separated ==> pos == 0
    ensures WrappedSoFar(widths, words, done + 1, Emitted(out, word, broke, separated),
              (if broke then 0 else if separated then pos + SpaceLen(widths) else pos) + Width(widths, word))
  {
    EmitGreedy(widths, out, pos, word, broke, separated);
    VisibleWord(out, word, broke, separated);
    assert words[..done + 1] == words[..done] + [word];
    FlattenSnoc(Flatten(words[..done]), words[..done], word);
  }

  lemma EmitGreedy(widths: seq<nat>, out: seq<Byte>, pos: nat, word: seq<Byte>, broke: bool, separated: bool)
    requires Greedy(widths, out) && pos == Width(widths, LastRow(out))
    requires Nul !in word && Space !in word && Width(widths, word) <= LineMax
    requires broke ==> pos != 0 && pos + SpaceLen(widths) + Width(widths, word) > LineMax
    requires separated ==> !broke && pos != 0 && pos + SpaceLen(widths) + Width(widths, word) <= LineMax
    requires !broke && !separated ==> pos == 0
    ensures Greedy(widths, Emitted(out, word, broke, separated))
    ensures Width(widths, LastRow(Emitted(out, word, broke, separated)))
         == (if broke then 0 else if separated then pos + SpaceLen(widths) else pos) + Width(widths, word)
  {
    WidthSingle(widths, Space);
    if broke {
      GreedyBreak(widths, out, word);
    } else if separated {
      GreedyText(widths, out, [Space]);
      GreedyText(widths, out + [Space], word);
    } else {
      GreedyText(widths, out, word);
    }
  }

  /** The terminator completes the output for the line; without over-wide
      words the items are the reference wrapping of the line's words. */
  lemma FinishLine(widths: seq<nat>, line: seq<Byte>, done: nat, chunks: seq<seq<Byte>>, out: seq<Byte>, pos: nat)
    requires Sanitized(line) && WrapInvariant(widths, line, [], done, chunks, out, pos) && out == Flatten(chunks)
    ensures LineOutput(widths, line, out + [Nul])
    ensures NoWideWords(widths, line) ==> chunks == WrapWords(widths, Split(line, Space)).0
  {
    EmitBreak(out);
    assert (out + [Nul])[..|out|] == out;
    var all := Split(line, Space);
    if NoWideWords(widths, line) {
      assert all[..|all|] == all;
      WordsOfLine(line);
      forall k | 0 <= k < |all|
        ensures Nul !in all[k] && Space !in all[k] && Width(widths, all[k]) <= LineMax
      {
        assert all[k] in all;
        assert Nul !in all[k] by {
          forall b | b in all[k] ensures b != Nul { }
        }
      }
      WrapWordsGreedy(widths, all);
      VisibleAppend(out, [Nul]);
      VisibleSingle(Nul);
      assert Nul !in line by {
        forall b | b in line ensures b != Nul { }
      }
      VisibleOfSplit(line);
    }
  }

  /** The body of `process_lines`: sanitizes and wraps each input line in turn,
      then yields the padding. */
  method ProcessLines(widths: seq<nat>, input: seq<seq<Byte>>)
    returns (r: Result<seq<seq<Byte>>>, ghost segs: seq<seq<Byte>>)
    requires |widths| >= 96
    ensures r.Ok? ==> |segs| == |input| && Flatten(r.value) == Flatten(segs) + Padding
    ensures r.Ok? ==> |r.value| >= 1 && r.value[|r.value| - 1] == Padding
    ensures r.Ok? ==> forall i | 0 <= i < |input| :: LineOutput(widths, Sanitize(input[i]), segs[i])
    ensures r.Ok? ==> Clean(Flatten(r.value))
    ensures (forall i | 0 <= i < |input| :: NoWideWords(widths, Sanitize(input[i])) || DashFits(widths, Sanitize(input[i])))
            ==> r.Ok?
  {
    var chunks: seq<seq<Byte>> := [];
    segs := [];
    for i := 0 to |input|
      invariant |segs| == i
      invariant Flatten(chunks) == Flatten(segs)
      invariant forall j | 0 <= j < i :: LineOutput(widths, Sanitize(input[j]), segs[j])
      invariant Clean(Flatten(chunks))
    {
      var line := Sanitize(input[i]);
      var lineChunks := WrapLine(widths, line);
      if lineChunks.Fail? {
        return Fail(lineChunks.error), segs;
      }
      var seg := Flatten(lineChunks.value);
      FlattenAppend(chunks, lineChunks.value);
      FlattenSnoc(Flatten(segs), segs, seg);
      chunks := chunks + lineChunks.value;
      segs := segs + [seg];
    }
    FlattenSnoc(Flatten(chunks), chunks, Padding);
    chunks := chunks + [Padding];
    return Ok(chunks), segs;
  }

  // ---------------------------------------------------------------------
  // Lemmas behind WrapLine

  lemma FlattenSnoc(out: seq<Byte>, ss: seq<seq<Byte>>, x: seq<Byte>)
    requires out == Flatten(ss)
    ensures Flatten(ss + [x]) == out + x
  {
    assert (ss + [x])[..|ss|] == ss;
  }

  /** The two parts of a split word are still separator-free sanitized words. */
  lemma SplitKeepsWords(head: seq<Byte>, rest: seq<Byte>, word: seq<Byte>)
    requires Sanitized(word) && Space !in word
    requires |head| >= 1 && head[..|head| - 1] + rest == word && head[|head| - 1] == Dash
    ensures Sanitized(head) && Space !in head && Sanitized(rest) && Space !in rest
    ensures forall b | b in rest :: b in word
    ensures |head| >= 2 ==> |rest| < |word|
  {
    var stem := head[..|head| - 1];
    assert head == stem + [Dash];
    forall b | b in head ensures Space <= b <= Invalid && b != Space {
      if b != Dash {
        assert b in stem;
        assert b in word;
      }
    }
    forall b | b in rest ensures Space <= b <= Invalid && b != Space {
      assert b in word;
    }
  }

  /** A terminator closes the current row and opens an empty one. */
  lemma EmitBreak(out: seq<Byte>)
    ensures Split(out + [Nul], Nul) == Split(out, Nul) + [[]]
    ensures LastRow(out + [Nul]) == []
    ensures Clean(out) ==> Clean(out + [Nul])
    ensures NoLeadingSeparator(out) ==> NoLeadingSeparator(out + [Nul])
  {
    SplitAppendSep(out, Nul);
  }

  /** Terminator-free text extends the current row. */
  lemma EmitText(out: seq<Byte>, t: seq<Byte>)
    requires Nul !in t
    ensures LastRow(out + t) == LastRow(out) + t
    ensures Clean(out) && Sanitized(t) ==> Clean(out + t)
    ensures NoLeadingSeparator(out) && (LastRow(out) != [] || t == [] || t[0] != Space)
            ==> NoLeadingSeparator(out + t)
  {
    SplitAppendFree(out, t, Nul);
    var rows := Split(out, Nul);
    var rows' := Split(out + t, Nul);
    var n := |rows|;
    if NoLeadingSeparator(out) && (LastRow(out) != [] || t == [] || t[0] != Space) {
      forall k | 0 <= k < n ensures rows'[k] == [] || rows'[k][0] != Space {
        if k < n - 1 {
          assert rows'[k] == rows'[..n - 1][k] == rows[..n - 1][k] == rows[k];
        }
      }
    }
  }

  /** A row's leading word only grows as text is appended to the row. */
  lemma {:induction false} LeadingWordGrows(widths: seq<nat>, a: seq<Byte>, t: seq<Byte>)
    ensures Width(widths, LeadingWord(a)) <= Width(widths, LeadingWord(a + t))
    decreases |a|
  {
    if a != [] && a[0] != Space {
      assert (a + t)[0] == a[0] && (a + t)[1..] == a[1..] + t;
      LeadingWordGrows(widths, a[1..], t);
      WidthAppend(widths, [a[0]], LeadingWord(a[1..]));
      WidthAppend(widths, [a[0]], LeadingWord(a[1..] + t));
    } else if a == [] {
      assert LeadingWord(a) == [];
    }
  }

  /** A word without separators is its own leading word. */
  lemma {:induction false} LeadingWordOfWord(w: seq<Byte>)
    requires Space !in w
    ensures LeadingWord(w) == w
    decreases |w|
  {
    if w != [] {
      assert w[0] in w;
      assert forall b | b in w[1..] :: b in w;
      LeadingWordOfWord(w[1..]);
      assert [w[0]] + w[1..] == w;
    }
  }

  /** Text that still fits keeps the rows greedy. */
  lemma GreedyText(widths: seq<nat>, out: seq<Byte>, t: seq<Byte>)
    requires Greedy(widths, out) && Nul !in t
    requires Width(widths, LastRow(out)) + Width(widths, t) <= LineMax
    ensures Greedy(widths, out + t)
    ensures Width(widths, LastRow(out + t)) == Width(widths, LastRow(out)) + Width(widths, t)
  {
    SplitAppendFree(out, t, Nul);
    var rows := Split(out, Nul);
    var n := |rows|;
    WidthAppend(widths, rows[n - 1], t);
    var rows' := rows[..n - 1] + [rows[n - 1] + t];
    assert Split(out + t, Nul) == rows';
    GreedyRowsExtend(widths, rows, t);
  }

  lemma GreedyRowsExtend(widths: seq<nat>, rows: seq<seq<Byte>>, t: seq<Byte>)
    requires |rows| >= 1 && GreedyRows(widths, rows)
    requires RowFits(widths, rows[|rows| - 1] + t)
    ensures GreedyRows(widths, rows[..|rows| - 1] + [rows[|rows| - 1] + t])
  {
    var n := |rows|;
    var rows' := rows[..n - 1] + [rows[n - 1] + t];
    forall k | 0 <= k < n - 1 ensures BreakForced(widths, rows'[k], rows'[k + 1]) {
      assert rows'[k] == rows[k];
      if k + 1 == n - 1 {
        assert BreakForced(widths, rows[k], rows[k + 1]);
        LeadingWordGrows(widths, rows[n - 1], t);
      } else {
        assert rows'[k + 1] == rows[k + 1];
      }
    }
    assert forall k | 0 <= k < n - 1 :: rows'[k] == rows[k];
  }

  /** A terminator before a word that would not fit keeps the rows greedy. */
  lemma GreedyBreak(widths: seq<nat>, out: seq<Byte>, w: seq<Byte>)
    requires Greedy(widths, out) && Nul !in w && Space !in w
    requires Width(widths, LastRow(out)) > 0
    requires Width(widths, LastRow(out)) + SpaceLen(widths) + Width(widths, w) > LineMax
    requires Width(widths, w) <= LineMax
    ensures Greedy(widths, out + [Nul] + w)
    ensures LastRow(out + [Nul] + w) == w
  {
    var rows := Split(out, Nul);
    SplitAfterSep(out, rows, w, Nul);
    LeadingWordOfWord(w);
    GreedyRowsBreak(widths, rows, w);
  }

  lemma GreedyRowsBreak(widths: seq<nat>, rows: seq<seq<Byte>>, w: seq<Byte>)
    requires |rows| >= 1 && GreedyRows(widths, rows)
    requires BreakForced(widths, rows[|rows| - 1], w) && RowFits(widths, w)
    ensures GreedyRows(widths, rows + [w])
  {
    var rows' := rows + [w];
    assert forall k | 0 <= k < |rows| :: rows'[k] == rows[k];
  }

  /** Each word adds exactly its own bytes to the visible text. */
  lemma VisibleWord(out: seq<Byte>, w: seq<Byte>, broke: bool, separated: bool)
    requires Nul !in w && Space !in w
    ensures broke ==> Visible(out + [Nul] + w) == Visible(out) + w
    ensures separated ==> Visible(out + [Space] + w) == Visible(out) + w
    ensures Visible(out + w) == Visible(out) + w
  {
    VisibleOfFree(w);
    VisibleAppend(out, w);
    if broke {
      VisibleAfterBlank(out, Nul, w);
    }
    if separated {
      VisibleAfterBlank(out, Space, w);
    }
  }

  lemma VisibleAfterBlank(out: seq<Byte>, b: Byte, w: seq<Byte>)
    requires b == Nul || b == Space
    ensures Visible(out + [b] + w) == Visible(out + [b]) + Visible(w)
    ensures Visible(out + [b]) == Visible(out)
  {
    VisibleAppend(out + [b], w);
    assert (out + [b])[..|out|] == out;
  }

  lemma {:induction false} VisibleAppend(a: seq<Byte>, b: seq<Byte>)
    ensures Visible(a + b) == Visible(a) + Visible(b)
    decreases |b|
  {
    if b == [] {
      assert a + b == a;
    } else {
      assert (a + b)[..|a + b| - 1] == a + b[..|b| - 1];
      VisibleAppend(a, b[..|b| - 1]);
    }
  }

  /** Text without terminators or separators is all visible. */
  lemma {:induction false} VisibleOfFree(w: seq<Byte>)
    requires Nul !in w && Space !in w
    ensures Visible(w) == w
    decreases |w|
  {
    if w != [] {
      var init := w[..|w| - 1];
      var c := w[|w| - 1];
      assert w == init + [c];
      VisibleOfFree(init);
    }
  }

  /** The visible text of a line is the concatenation of its words. */
  lemma {:induction false} VisibleOfSplit(line: seq<Byte>)
    requires Nul !in line
    ensures Visible(line) == Flatten(Split(line, Space))
    decreases |line|
  {
    if line != [] {
      var s' := line[..|line| - 1];
      var c := line[|line| - 1];
      assert c in line;
      assert forall b | b in s' :: b in line;
      VisibleOfSplit(s');
      var init := Split(s', Space);
      if c == Space {
        assert Visible(line) == Visible(s');
        assert Split(line, Space) == init + [[]];
        FlattenSnoc(Flatten(init), init, []);
      } else {
        assert Visible(line) == Visible(s') + [c];
        assert Split(line, Space) == init[..|init| - 1] + [init[|init| - 1] + [c]];
        LastPieceGrows(init, c);
      }
    }
  }

  lemma LastPieceGrows(ws: seq<seq<Byte>>, c: Byte)
    requires |ws| >= 1
    ensures Flatten(ws[..|ws| - 1] + [ws[|ws| - 1] + [c]]) == Flatten(ws) + [c]
  {
    var pre := ws[..|ws| - 1];
    FlattenSnoc(Flatten(pre), pre, ws[|ws| - 1] + [c]);
    assert Flatten(ws) == Flatten(pre) + ws[|ws| - 1];
  }

  lemma WidthSingle(widths: seq<nat>, c: Byte)
    ensures Width(widths, [c]) == CharWidth(widths, c)
  {
    var s: seq<Byte> := [c];
    assert s[..0] == [];
  }

  lemma FlattenSingle(w: seq<Byte>)
    ensures Flatten([w]) == w
  {
    var ss: seq<seq<Byte>> := [w];
    assert ss[..0] == [];
  }

  lemma VisibleSingle(b: Byte)
    ensures Visible([b]) == (if b == Nul || b == Space then [] else [b])
  {
    var s: seq<Byte> := [b];
    assert s[..0] == [];
  }
}
