/** Byte strings, and the few operations on Python 2 `str` values that the two
    converters rely on: `"".join`, `s.split(sep)` and `sep.join`. */
module ByteSeqs {

  /** One byte of a Python 2 `str`. */
  type Byte = b: int | 0 <= b < 256

  /** An operation that either produces a value or stops the run (a failed
      `assert` or a raised exception in the converters). */
  datatype Result<T> = Ok(value: T) | Fail(error: string)

  /** The line terminator of the text stream. */
  const Nul: Byte := 0
  /** The word separator, and the first entry of the width table. */
  const Space: Byte := 32

  /** `"".join(ss)`: the concatenation of a list of byte strings. */
  function Flatten(ss: seq<seq<Byte>>): seq<Byte>
  {
    if ss == [] then [] else Flatten(ss[..|ss| - 1]) + ss[|ss| - 1]
  }

  lemma {:induction false} FlattenAppend(ss: seq<seq<Byte>>, tt: seq<seq<Byte>>)
    ensures Flatten(ss + tt) == Flatten(ss) + Flatten(tt)
    decreases |tt|
  {
    if tt == [] {
      assert ss + tt == ss;
    } else {
      var init := tt[..|tt| - 1];
      var all := ss + tt;
      assert all[..|all| - 1] == ss + init;
      assert all[|all| - 1] == tt[|tt| - 1];
      FlattenAppend(ss, init);
    }
  }

  /** `s.split(sep)` with an explicit separator: the pieces between separators,
      empty pieces included, so a string with n separators has n + 1 pieces. */
  function Split(s: seq<Byte>, sep: Byte): (r: seq<seq<Byte>>)
    ensures |r| >= 1
  {
    if s == [] then [[]]
    else
      var init := Split(s[..|s| - 1], sep);
      if s[|s| - 1] == sep then init + [[]]
      else init[..|init| - 1] + [init[|init| - 1] + [s[|s| - 1]]]
  }

  /** No piece holds the separator, and every byte of a piece comes from the string. */
  lemma {:induction false} SplitPieces(s: seq<Byte>, sep: Byte)
    ensures forall k | 0 <= k < |Split(s, sep)| :: sep !in Split(s, sep)[k]
    ensures forall k, b | 0 <= k < |Split(s, sep)| && b in Split(s, sep)[k] :: b in s
    decreases |s|
  {
    if s != [] {
      var s' := s[..|s| - 1];
      var c := s[|s| - 1];
      var init := Split(s', sep);
      SplitPieces(s', sep);
      assert forall b | b in s' :: b in s;
      if c != sep {
        var last := init[|init| - 1] + [c];
        assert Split(s, sep) == init[..|init| - 1] + [last];
        assert sep !in init[|init| - 1];
        assert forall b | b in init[|init| - 1] :: b in s;
      }
    }
  }

  /** `sep.join(ws)`. */
  function Join(ws: seq<seq<Byte>>, sep: Byte): seq<Byte>
  {
    if ws == [] then []
    else if |ws| == 1 then ws[0]
    else Join(ws[..|ws| - 1], sep) + [sep] + ws[|ws| - 1]
  }

  /** Appending a separator opens a new, empty piece. */
  lemma SplitAppendSep(s: seq<Byte>, sep: Byte)
    ensures Split(s + [sep], sep) == Split(s, sep) + [[]]
  {
    assert (s + [sep])[..|s|] == s;
  }

  /** Appending one byte other than the separator extends the last piece. */
  lemma SplitAppendByte(s: seq<Byte>, c: Byte, sep: Byte)
    requires c != sep
    ensures var p := Split(s, sep);
            Split(s + [c], sep) == p[..|p| - 1] + [p[|p| - 1] + [c]]
  {
    assert (s + [c])[..|s|] == s;
  }

  /** Appending bytes that hold no separator extends the last piece and
      leaves the others alone. */
  lemma {:induction false} SplitAppendFree(s: seq<Byte>, t: seq<Byte>, sep: Byte)
    requires sep !in t
    ensures |Split(s + t, sep)| == |Split(s, sep)|
    ensures Split(s + t, sep)[..|Split(s, sep)| - 1] == Split(s, sep)[..|Split(s, sep)| - 1]
    ensures Split(s + t, sep)[|Split(s, sep)| - 1] == Split(s, sep)[|Split(s, sep)| - 1] + t
    decreases |t|
  {
    if t == [] {
      assert s + t == s;
    } else {
      var t' := t[..|t| - 1];
      var c := t[|t| - 1];
      SplitAppendFree(s, t', sep);
      assert s + t == (s + t') + [c];
      SplitAppendByte(s + t', c, sep);
      assert t' + [c] == t;
    }
  }

  /** Extending the last piece extends the joined string by the same bytes. */
  lemma JoinExtendLast(ws: seq<seq<Byte>>, t: seq<Byte>, sep: Byte)
    requires |ws| >= 1
    ensures Join(ws[..|ws| - 1] + [ws[|ws| - 1] + t], sep) == Join(ws, sep) + t
  {
    var vs := ws[..|ws| - 1] + [ws[|ws| - 1] + t];
    if |ws| > 1 {
      assert vs[..|vs| - 1] == ws[..|ws| - 1];
    }
  }

  /** Joining the pieces of a split gives back the original string. */
  lemma {:induction false} JoinSplit(s: seq<Byte>, sep: Byte)
    ensures Join(Split(s, sep), sep) == s
    decreases |s|
  {
    if s != [] {
      var s' := s[..|s| - 1];
      var init := Split(s', sep);
      JoinSplit(s', sep);
      assert s == s' + [s[|s| - 1]];
      if s[|s| - 1] == sep {
        assert (init + [[]])[..|init|] == init;
      } else {
        JoinExtendLast(init, [s[|s| - 1]], sep);
      }
    }
  }

  /** Splitting a join of separator-free pieces gives back the pieces. */
  lemma {:induction false} SplitJoin(ws: seq<seq<Byte>>, sep: Byte)
    requires |ws| >= 1
    requires forall k | 0 <= k < |ws| :: sep !in ws[k]
    ensures Split(Join(ws, sep), sep) == ws
    decreases |ws|
  {
    var w := ws[|ws| - 1];
    assert sep !in w;
    if |ws| == 1 {
      SplitAppendFree([], w, sep);
      assert [] + w == w;
    } else {
      var ws' := ws[..|ws| - 1];
      LastSplit(ws);
      assert forall k | 0 <= k < |ws'| :: sep !in ws'[k] by {
        forall k | 0 <= k < |ws'| ensures sep !in ws'[k] {
          assert ws'[k] == ws[k];
        }
      }
      SplitJoin(ws', sep);
      SplitAfterSep(Join(ws', sep), ws', w, sep);
    }
  }

  /** Prepending a piece prepends its bytes. */
  lemma FlattenCons(x: seq<Byte>, ss: seq<seq<Byte>>)
    ensures Flatten([x] + ss) == x + Flatten(ss)
  {
    var one: seq<seq<Byte>> := [x];
    assert one[..0] == [];
    FlattenAppend(one, ss);
  }

  /** A non-empty list is its front followed by its last element. */
  lemma LastSplit<T>(s: seq<T>)
    requires s != []
    ensures s == s[..|s| - 1] + [s[|s| - 1]]
  {
  }

  /** One step of SplitJoin: a separator and a separator-free piece add one piece. */
  lemma SplitAfterSep(j: seq<Byte>, ws: seq<seq<Byte>>, w: seq<Byte>, sep: Byte)
    requires Split(j, sep) == ws && sep !in w
    ensures Split(j + [sep] + w, sep) == ws + [w]
  {
    SplitAppendSep(j, sep);
    SplitAppendFree(j + [sep], w, sep);
    var r := Split(j + [sep] + w, sep);
    assert |r| == |ws| + 1;
    assert r[..|ws|] == ws;
    assert r[|ws|] == [] + w == w;
    assert r == r[..|ws|] + [r[|ws|]];
  }

}
