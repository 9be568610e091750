/** The clean-up applied to each input line before it is wrapped
    (tools/generate_text.py, the replacement chain at the top of the
    `process_lines` loop). */
module Sanitizer {
  import opened ByteSeqs

  const Tab: Byte := 0x09
  const Newline: Byte := 0x0A
  const Dash: Byte := 0x2D
  const Apostrophe: Byte := 0x27
  const Quote: Byte := 0x22
  const Tilde: Byte := 0x7E
  /** The "invalid character" glyph that stands for every other byte. */
  const Invalid: Byte := 0x7F

  const FourSpaces: seq<Byte> := [Space, Space, Space, Space]
  /** UTF-8 encodings of the typographic characters that get an ASCII stand-in. */
  const EnDash: seq<Byte> := [0xE2, 0x80, 0x93]
  const EmDash: seq<Byte> := [0xE2, 0x80, 0x94]
  const LeftSingleQuote: seq<Byte> := [0xE2, 0x80, 0x98]
  const RightSingleQuote: seq<Byte> := [0xE2, 0x80, 0x99]
  const LeftDoubleQuote: seq<Byte> := [0xE2, 0x80, 0x9C]
  const RightDoubleQuote: seq<Byte> := [0xE2, 0x80, 0x9D]

  /** The bytes the width table covers: space (0x20) up to the invalid glyph (0x7F). */
  predicate Sanitized(s: seq<Byte>)
  {
    forall b | b in s :: Space <= b <= Invalid
  }

  /** `s.strip(c)`: drop every leading and every trailing `c`. */
  function Strip(s: seq<Byte>, c: Byte): (r: seq<Byte>)
    ensures r == [] || (r[0] != c && r[|r| - 1] != c)
    ensures c !in s ==> r == s
    ensures forall b | b in r :: b in s
    ensures exists i :: StripsTo(s, c, i, r)
  {
    StripSlice(s, c);
    StripTrailing(StripLeading(s, c), c)
  }

  lemma StripSlice(s: seq<Byte>, c: Byte)
    ensures StripsTo(s, c, |s| - |StripLeading(s, c)|, StripTrailing(StripLeading(s, c), c))
  {
    var t := StripLeading(s, c);
    var r := StripTrailing(t, c);
    assert |t| <= |s| && t == s[|s| - |t|..];
    assert |r| <= |t| && r == t[..|r|];
    assert forall k | |r| <= k < |t| :: t[k] == c;
    StripLeadingDrops(s, c);
    SliceOfSuffix(s, t, r, c);
  }

  /** A prefix `r` of a suffix `t` of `s` strips `s` when the bytes outside both are `c`. */
  lemma SliceOfSuffix(s: seq<Byte>, t: seq<Byte>, r: seq<Byte>, c: Byte)
    requires |t| <= |s| && t == s[|s| - |t|..] && |r| <= |t| && r == t[..|r|]
    requires forall k | 0 <= k < |s| - |t| :: s[k] == c
    requires forall k | |r| <= k < |t| :: t[k] == c
    ensures StripsTo(s, c, |s| - |t|, r)
  {
    var i := |s| - |t|;
    assert r == s[i..i + |r|];
    assert forall k | i + |r| <= k < |s| :: s[k] == t[k - i];
  }

  /** `r` is the slice of `s` starting at `i`, and every byte of `s` before
      or after it is `c`. */
  predicate StripsTo(s: seq<Byte>, c: Byte, i: int, r: seq<Byte>)
  {
    0 <= i <= |s| - |r| && r == s[i..i + |r|]
    && (forall k | 0 <= k < i :: s[k] == c)
    && (forall k | i + |r| <= k < |s| :: s[k] == c)
  }

  function StripLeading(s: seq<Byte>, c: Byte): (r: seq<Byte>)
    ensures r == [] || r[0] != c
    ensures c !in s ==> r == s
    ensures forall b | b in r :: b in s
    ensures |r| <= |s| && r == s[|s| - |r|..]
  {
    if s != [] && s[0] == c then StripLeading(s[1..], c) else s
  }

  /** Every byte `StripLeading` removes is `c`. */
  lemma {:induction false} StripLeadingDrops(s: seq<Byte>, c: Byte)
    ensures forall k | 0 <= k < |s| - |StripLeading(s, c)| :: s[k] == c
  {
    if s != [] && s[0] == c {
      StripLeadingDrops(s[1..], c);
    }
  }

  function StripTrailing(s: seq<Byte>, c: Byte): (r: seq<Byte>)
    ensures r == [] || r[|r| - 1] != c
    ensures c !in s ==> r == s
    ensures forall b | b in r :: b in s
    ensures |r| <= |s| && r == s[..|r|]
    ensures s != [] && s[0] != c ==> r != [] && r[0] == s[0]
    ensures forall k | |r| <= k < |s| :: s[k] == c
  {
    if s != [] && s[|s| - 1] == c then
      assert forall b | b in s[..|s| - 1] :: b in s;
      StripTrailing(s[..|s| - 1], c)
    else s
  }

  /** A search string of `str.replace`; the program never searches for the empty string. */
  type Pattern = p: seq<Byte> | |p| > 0 witness [0]

  /** `s.replace(pat, rep)`: every occurrence of `pat`, found left to right
      without overlap, is replaced by `rep`. */
  function ReplaceAll(s: seq<Byte>, pat: Pattern, rep: seq<Byte>): seq<Byte>
    decreases |s|
  {
    if |s| < |pat| then s
    else if s[..|pat|] == pat then rep + ReplaceAll(s[|pat|..], pat, rep)
    else [s[0]] + ReplaceAll(s[1..], pat, rep)
  }

  /** `re.sub("[^ -~]", "\x7f", s)`: each byte outside space..tilde becomes 0x7F. */
  function MaskNonPrintable(s: seq<Byte>): (r: seq<Byte>)
  {
    seq(|s|, i requires 0 <= i < |s| => if Space <= s[i] <= Tilde then s[i] else Invalid)
  }

  /** The typographic replacements, in the order the program applies them. */
  const Replacements: seq<(Pattern, seq<Byte>)> :=
    [([Tab], FourSpaces), (EnDash, [Dash]), (EmDash, [Dash]),
     (LeftSingleQuote, [Apostrophe]), (RightSingleQuote, [Apostrophe]),
     (LeftDoubleQuote, [Quote]), (RightDoubleQuote, [Quote])]

  /** `s.replace(p1, r1).replace(p2, r2)...`: the replacements applied one after another. */
  function ReplaceInOrder(s: seq<Byte>, reps: seq<(Pattern, seq<Byte>)>): seq<Byte>
    decreases |reps|
  {
    if reps == [] then s
    else ReplaceInOrder(ReplaceAll(s, reps[0].0, reps[0].1), reps[1..])
  }

  /** The whole chain, in the order the program applies it. */
  function Sanitize(raw: seq<Byte>): (r: seq<Byte>)
    ensures Sanitized(r)
  {
    MaskNonPrintable(ReplaceInOrder(Strip(raw, Newline), Replacements))
  }

  /** A pattern whose first byte does not occur leaves the string unchanged. */
  lemma {:induction false} ReplaceAbsent(s: seq<Byte>, pat: Pattern, rep: seq<Byte>)
    requires pat[0] !in s
    ensures ReplaceAll(s, pat, rep) == s
    decreases |s|
  {
    if |s| >= |pat| {
      assert s[0] != pat[0];
      assert s[..|pat|] != pat;
      ReplaceAbsent(s[1..], pat, rep);
      assert [s[0]] + s[1..] == s;
    }
  }

  /** Replacing a one-byte pattern expands each of its occurrences in place and
      keeps every other byte: the tab rule turns each tab into four spaces. */
  lemma {:induction false} ReplaceByteExpands(s: seq<Byte>, p: Byte, rep: seq<Byte>)
    ensures ReplaceAll(s, [p], rep)
         == Flatten(seq(|s|, i requires 0 <= i < |s| => if s[i] == p then rep else [s[i]]))
    decreases |s|
  {
    var pieces := seq(|s|, i requires 0 <= i < |s| => if s[i] == p then rep else [s[i]]);
    if s != [] {
      var rest := seq(|s| - 1, i requires 0 <= i < |s| - 1 => if s[1..][i] == p then rep else [s[1..][i]]);
      ReplaceByteExpands(s[1..], p, rep);
      assert pieces == [pieces[0]] + rest;
      FlattenCons(pieces[0], rest);
      assert s[..1] == [s[0]];
    }
  }

  /** Replacements whose patterns all start with an absent byte change nothing. */
  lemma {:induction false} ReplaceInOrderAbsent(s: seq<Byte>, reps: seq<(Pattern, seq<Byte>)>)
    requires forall k | 0 <= k < |reps| :: reps[k].0[0] !in s
    ensures ReplaceInOrder(s, reps) == s
    decreases |reps|
  {
    if reps != [] {
      ReplaceAbsent(s, reps[0].0, reps[0].1);
      assert forall k | 0 <= k < |reps| - 1 :: reps[1..][k] == reps[k + 1];
      ReplaceInOrderAbsent(s, reps[1..]);
    }
  }

  /** Text that is already sanitized passes through the chain unchanged. */
  lemma SanitizeFixes(s: seq<Byte>)
    requires Sanitized(s)
    ensures Sanitize(s) == s
  {
    assert Newline !in s;
    assert Tab !in s;
    assert 0xE2 !in s;
    ReplaceInOrderAbsent(s, Replacements);
    assert MaskNonPrintable(s) == s by {
      forall i | 0 <= i < |s| ensures MaskNonPrintable(s)[i] == s[i] {
        assert s[i] in s;
      }
    }
  }

  /** Sanitizing twice is the same as sanitizing once. */
  lemma SanitizeIdempotent(raw: seq<Byte>)
    ensures Sanitize(Sanitize(raw)) == Sanitize(raw)
  {
    SanitizeFixes(Sanitize(raw));
  }

  /** A line holding an em dash and the two UTF-8 bytes of an accented letter:
      the dash becomes '-', each byte of the letter becomes the invalid glyph,
      and the trailing newline goes. */
  lemma EmDashAndAccentExample()
    ensures Sanitize([0x61, 0xE2, 0x80, 0x94, 0x62, 0xC3, 0xA9, Newline])
         == [0x61, Dash, 0x62, Invalid, Invalid]
  {
    var s0: seq<Byte> := [0x61, 0xE2, 0x80, 0x94, 0x62, 0xC3, 0xA9];
    var s3: seq<Byte> := [0x61, Dash, 0x62, 0xC3, 0xA9];
    StripExample();
    FirstThreeExample();
    ReplacementsLead();
    var rest := Replacements[3..];
    assert forall k | 0 <= k < |rest| :: rest[k] == Replacements[k + 3];
    assert 0xE2 !in s3;
    ReplaceInOrderAbsent(s3, rest);
    MaskExample();
    Chain([0x61, 0xE2, 0x80, 0x94, 0x62, 0xC3, 0xA9, Newline], s0, 3, s3,
          [0x61, Dash, 0x62, Invalid, Invalid]);
  }

  /** Every replacement after the tab one searches for a UTF-8 sequence
      starting with 0xE2. */
  lemma ReplacementsLead()
    ensures forall k | 1 <= k < |Replacements| :: Replacements[k].0[0] == 0xE2
  {
  }

  /** Sanitizing is stripping, then the first n replacements, then the rest, then masking. */
  lemma Chain(raw: seq<Byte>, stripped: seq<Byte>, n: nat, mid: seq<Byte>, r: seq<Byte>)
    requires n <= |Replacements|
    requires Strip(raw, Newline) == stripped
    requires ReplaceInOrder(stripped, Replacements[..n]) == mid
    requires MaskNonPrintable(ReplaceInOrder(mid, Replacements[n..])) == r
    ensures Sanitize(raw) == r
  {
    FirstSteps(stripped, Replacements, n);
  }

  lemma FirstThreeExample()
    ensures ReplaceInOrder([0x61, 0xE2, 0x80, 0x94, 0x62, 0xC3, 0xA9], Replacements[..3])
         == [0x61, Dash, 0x62, 0xC3, 0xA9]
  {
    var s0: seq<Byte> := [0x61, 0xE2, 0x80, 0x94, 0x62, 0xC3, 0xA9];
    ReplaceAbsent(s0, [Tab], FourSpaces);
    EnDashAbsentExample();
    EmDashExample();
    assert Replacements[..3] == [([Tab], FourSpaces), (EnDash, [Dash]), (EmDash, [Dash])];
    ThreeSteps(s0, Replacements[..3]);
  }

  /** Applying a list of replacements is applying a prefix of it, then the rest. */
  lemma {:induction false} FirstSteps(s: seq<Byte>, reps: seq<(Pattern, seq<Byte>)>, n: nat)
    requires n <= |reps|
    ensures ReplaceInOrder(s, reps) == ReplaceInOrder(ReplaceInOrder(s, reps[..n]), reps[n..])
    decreases n
  {
    assert forall k | 0 <= k < n :: reps[..n][k] == reps[k];
    assert forall k | 0 <= k < |reps| - n :: reps[n..][k] == reps[n + k];
    if n == 0 {
      assert reps[n..] == reps;
    } else {
      var s1 := ReplaceAll(s, reps[0].0, reps[0].1);
      assert reps[1..][..n - 1] == reps[..n][1..];
      assert reps[1..][n - 1..] == reps[n..];
      assert forall k | 0 <= k < |reps| - 1 :: reps[1..][k] == reps[k + 1];
      FirstSteps(s1, reps[1..], n - 1);
    }
  }

  lemma ThreeSteps(s: seq<Byte>, reps: seq<(Pattern, seq<Byte>)>)
    requires reps == [([Tab], FourSpaces), (EnDash, [Dash]), (EmDash, [Dash])]
    ensures ReplaceInOrder(s, reps)
         == ReplaceAll(ReplaceAll(ReplaceAll(s, [Tab], FourSpaces), EnDash, [Dash]), EmDash, [Dash])
  {
    var s1 := ReplaceAll(s, [Tab], FourSpaces);
    var s2 := ReplaceAll(s1, EnDash, [Dash]);
    var s3 := ReplaceAll(s2, EmDash, [Dash]);
    assert reps[1..] == [(EnDash, [Dash]), (EmDash, [Dash])];
    assert reps[1..][1..] == [(EmDash, [Dash])];
    assert ReplaceInOrder(s3, []) == s3;
    assert ReplaceInOrder(s2, [(EmDash, [Dash])]) == s3;
    assert ReplaceInOrder(s1, reps[1..]) == s3;
  }

  lemma MaskExample()
    ensures MaskNonPrintable([0x61, Dash, 0x62, 0xC3, 0xA9]) == [0x61, Dash, 0x62, Invalid, Invalid]
  {
    var m := MaskNonPrintable([0x61, Dash, 0x62, 0xC3, 0xA9]);
    assert m[0] == 0x61 && m[1] == Dash && m[2] == 0x62 && m[3] == Invalid && m[4] == Invalid;
  }

  lemma StripExample()
    ensures Strip([0x61, 0xE2, 0x80, 0x94, 0x62, 0xC3, 0xA9, Newline], Newline)
         == [0x61, 0xE2, 0x80, 0x94, 0x62, 0xC3, 0xA9]
  {
    var raw: seq<Byte> := [0x61, 0xE2, 0x80, 0x94, 0x62, 0xC3, 0xA9, Newline];
    assert StripLeading(raw, Newline) == raw;
    assert raw[..|raw| - 1] == [0x61, 0xE2, 0x80, 0x94, 0x62, 0xC3, 0xA9];
  }

  lemma EnDashAbsentExample()
    ensures ReplaceAll([0x61, 0xE2, 0x80, 0x94, 0x62, 0xC3, 0xA9], EnDash, [Dash])
         == [0x61, 0xE2, 0x80, 0x94, 0x62, 0xC3, 0xA9]
  {
    var s0: seq<Byte> := [0x61, 0xE2, 0x80, 0x94, 0x62, 0xC3, 0xA9];
    ReplaceAbsent(s0[2..], EnDash, [Dash]);
    assert s0[..3] != EnDash;
    assert s0[1..][..3] != EnDash;
    assert s0[1..][1..] == s0[2..];
  }

  lemma EmDashExample()
    ensures ReplaceAll([0x61, 0xE2, 0x80, 0x94, 0x62, 0xC3, 0xA9], EmDash, [Dash])
         == [0x61, Dash, 0x62, 0xC3, 0xA9]
  {
    var s0: seq<Byte> := [0x61, 0xE2, 0x80, 0x94, 0x62, 0xC3, 0xA9];
    var tail: seq<Byte> := [0x62, 0xC3, 0xA9];
    ReplaceAbsent(tail, EmDash, [Dash]);
    assert s0[1..][..3] == EmDash && s0[1..][3..] == tail;
    assert s0[..3] != EmDash;
  }

  /** A leading tab turns into four spaces. */
  lemma TabExample()
    ensures Sanitize([Tab, 0x61]) == [Space, Space, Space, Space, 0x61]
  {
    var s: seq<Byte> := [Tab, 0x61];
    var s1: seq<Byte> := [Space, Space, Space, Space, 0x61];
    assert Strip(s, Newline) == s;
    TabStep();
    FirstReplacement();
    assert ReplaceInOrder(s, Replacements[..1]) == s1;
    SanitizeFixes(s1);
    ReplaceInOrderAbsent(s1, Replacements[1..]);
    Chain(s, s, 1, s1, s1);
  }

  lemma FirstReplacement()
    ensures Replacements[..1] == [([Tab], FourSpaces)]
  {
    var reps := Replacements;
    assert reps[0] == ([Tab], FourSpaces);
    assert |reps[..1]| == 1 && reps[..1][0] == reps[0];
  }

  lemma TabStep()
    ensures ReplaceAll([Tab, 0x61], [Tab], FourSpaces) == [Space, Space, Space, Space, 0x61]
  {
    assert ReplaceAll([0x61], [Tab], FourSpaces) == [0x61];
  }
}
