/** Packing the wrapped text stream into numbered ROM banks
    (tools/generate_text.py, `process_text`). */
module BankPacker {
  import opened ByteSeqs
  import opened Sanitizer
  import opened LineWrapper

  /** Text bytes one bank may hold: a 16 KiB bank less one byte for the sentinel. */
  const BankMax: nat := 0x4000 - 1
  /** Appended to every bank but the last: "continue in the next bank". */
  const Sentinel: Byte := 0xFF

  /** One `(bank, data)` pair the packer yields. */
  datatype Bank = Bank(number: int, data: seq<Byte>)

  /** The packer between two line units: the banks already yielded, and the
      number and contents of the bank being filled. */
  datatype Packer = Packer(closed: seq<Bank>, number: int, data: seq<Byte>)

  /** A stream the packer accepts: empty, or ending with a terminator. */
  predicate Terminated(s: seq<Byte>)
  {
    s == [] || s[|s| - 1] == Nul
  }

  /** A line unit: text without terminators, then one terminator. */
  predicate IsUnit(u: seq<Byte>)
  {
    |u| >= 1 && u[|u| - 1] == Nul && Nul !in u[..|u| - 1]
  }

  predicate AllUnits(us: seq<seq<Byte>>)
  {
    forall k | 0 <= k < |us| :: IsUnit(us[k])
  }

  /** The line units of a stream, in order: each piece before a terminator,
      with that terminator. Text after the last terminator is not a unit. */
  function Units(s: seq<Byte>): (us: seq<seq<Byte>>)
  {
    var p := Split(s, Nul);
    seq(|p| - 1, i requires 0 <= i < |p| - 1 => p[i] + [Nul])
  }

  /** `buf.find("\0")`: the position of the first occurrence of `x`. */
  function IndexOf(s: seq<Byte>, x: Byte): (i: nat)
    requires x in s
    ensures i < |s| && s[i] == x && x !in s[..i]
  {
    if s[0] == x then 0
    else
      assert x in s[1..];
      1 + IndexOf(s[1..], x)
  }

  /** The body of the `while "\0" in buf` loop for one line unit: close the
      open bank with a sentinel if the unit would take it past BankMax, then
      append the unit. */
  function AddLine(p: Packer, line: seq<Byte>): Packer
  {
    if |p.data| + |line| > BankMax then
      Packer(p.closed + [Bank(p.number, p.data + [Sentinel])], p.number + 1, line)
    else
      Packer(p.closed, p.number, p.data + line)
  }

  /** The packer after the given line units, starting from an empty bank `start`. */
  function PackLines(lines: seq<seq<Byte>>, start: int): Packer
  {
    if lines == [] then Packer([], start, [])
    else AddLine(PackLines(lines[..|lines| - 1], start), lines[|lines| - 1])
  }

  /** Everything yielded once the stream ends: the closed banks, then the open one as it is. */
  function Banks(p: Packer): seq<Bank>
  {
    p.closed + [Bank(p.number, p.data)]
  }

  function DropLast(s: seq<Byte>): seq<Byte>
  {
    if s == [] then [] else s[..|s| - 1]
  }

  /** The text of closed banks: each one without its final sentinel byte. */
  function ClosedText(closed: seq<Bank>): seq<Byte>
  {
    if closed == [] then []
    else ClosedText(closed[..|closed| - 1]) + DropLast(closed[|closed| - 1].data)
  }

  /** The text a run of banks carries: the last bank whole, the others without their sentinel. */
  function Text(banks: seq<Bank>): seq<Byte>
  {
    if banks == [] then [] else ClosedText(banks[..|banks| - 1]) + banks[|banks| - 1].data
  }

  /** The first line unit of a bank's text, or all of it when it holds no terminator. */
  function FirstUnit(s: seq<Byte>): seq<Byte>
  {
    if Nul in s then s[..IndexOf(s, Nul) + 1] else s
  }

  /** The text of the bank that follows closed bank i. */
  function NextText(p: Packer, i: nat): seq<Byte>
  {
    if i + 1 < |p.closed| then DropLast(p.closed[i + 1].data) else p.data
  }

  // ---------------------------------------------------------------------
  // process_text

  /** `process_text` over the chunks the wrapper yields: cuts the stream into
      line units with `buf.split("\0", 1)` and packs them into banks. */
  method PackBanks(chunks: seq<seq<Byte>>, start: int) returns (r: Result<seq<Bank>>)
    ensures r.Ok? <==> Terminated(Flatten(chunks))
    ensures r.Ok? ==> r.value == Banks(PackLines(Units(Flatten(chunks)), start))
  {
    var bank := start;
    var buf: seq<Byte> := [];
    var bankData: seq<Byte> := [];
    var banks: seq<Bank> := [];
    ghost var units: seq<seq<Byte>> := [];
    for i := 0 to |chunks|
      invariant Flatten(units) + buf == Flatten(chunks[..i])
      invariant Nul !in buf && AllUnits(units)
      invariant Packer(banks, bank, bankData) == PackLines(units, start)
    {
      assert chunks[..i + 1][..i] == chunks[..i];
      buf := buf + chunks[i];
      while Nul in buf
        invariant Flatten(units) + buf == Flatten(chunks[..i + 1])
        invariant AllUnits(units)
        invariant Packer(banks, bank, bankData) == PackLines(units, start)
        decreases |buf|
      {
        var k := IndexOf(buf, Nul);
        var line := buf[..k] + [Nul];
        ghost var buf0 := buf;
        buf := buf[k + 1..];
        if |bankData| + |line| > BankMax {
          banks := banks + [Bank(bank, bankData + [Sentinel])];
          bank := bank + 1;
          bankData := [];
        }
        bankData := bankData + line;
        TakeUnit(units, buf0, k, start);
        units := units + [line];
      }
    }
    assert chunks[..|chunks|] == chunks;
    UnitsOfStream(units, buf);
    if buf != [] {
      return Fail("no trailing newline");
    }
    return Ok(banks + [Bank(bank, bankData)]);
  }

  /** One trip round the inner loop moves one unit from the buffer to the units. */
  lemma TakeUnit(units: seq<seq<Byte>>, buf: seq<Byte>, k: nat, start: int)
    requires AllUnits(units) && k < |buf| && buf[k] == Nul && Nul !in buf[..k]
    ensures AllUnits(units + [buf[..k] + [Nul]])
    ensures Flatten(units + [buf[..k] + [Nul]]) + buf[k + 1..] == Flatten(units) + buf
    ensures PackLines(units + [buf[..k] + [Nul]], start) == AddLine(PackLines(units, start), buf[..k] + [Nul])
  {
    var line := buf[..k] + [Nul];
    assert line[..|line| - 1] == buf[..k];
    var us := units + [line];
    assert us[..|units|] == units;
    assert buf == line + buf[k + 1..];
  }

  /** The units taken, then a terminator-free tail, are the stream's units and its last piece. */
  lemma UnitsOfStream(units: seq<seq<Byte>>, tail: seq<Byte>)
    requires AllUnits(units) && Nul !in tail
    ensures Units(Flatten(units) + tail) == units
    ensures Terminated(Flatten(units) + tail) <==> tail == []
  {
    SplitUnits(units, tail);
    var s := Flatten(units) + tail;
    if tail != [] {
      assert s[|s| - 1] == tail[|tail| - 1];
      assert tail[|tail| - 1] in tail;
    } else {
      assert s == Flatten(units);
      TerminatedFlatten(units);
    }
  }

  lemma {:induction false} TerminatedFlatten(units: seq<seq<Byte>>)
    requires AllUnits(units)
    ensures Terminated(Flatten(units))
  {
    if units != [] {
      var u := units[|units| - 1];
      assert IsUnit(u);
    }
  }

  /** Splitting units and a tail at terminators gives back each unit less its
      terminator, then the tail. */
  lemma {:induction false} SplitUnits(units: seq<seq<Byte>>, tail: seq<Byte>)
    requires AllUnits(units) && Nul !in tail
    ensures var p := Split(Flatten(units) + tail, Nul);
            |p| == |units| + 1 && p[|units|] == tail
            && forall i | 0 <= i < |units| :: p[i] + [Nul] == units[i]
    decreases |units|
  {
    if units == [] {
      SplitAppendFree([], tail, Nul);
      assert [] + tail == tail;
    } else {
      var init := units[..|units| - 1];
      var u := units[|units| - 1];
      assert IsUnit(u);
      var stem := u[..|u| - 1];
      assert AllUnits(init) by {
        forall k | 0 <= k < |init| ensures IsUnit(init[k]) {
          assert init[k] == units[k];
        }
      }
      SplitUnits(init, stem);
      var q := Split(Flatten(init) + stem, Nul);
      SplitAfterSep(Flatten(init) + stem, q, tail, Nul);
      UnitConcat(Flatten(init), u, tail);
      assert u == stem + [Nul];
      assert units == init + [u];
      StemsExtend(q, tail, init, stem);
    }
  }

  lemma StemsExtend(q: seq<seq<Byte>>, tail: seq<Byte>, init: seq<seq<Byte>>, stem: seq<Byte>)
    requires |q| == |init| + 1 && q[|init|] == stem
    requires forall i | 0 <= i < |init| :: q[i] + [Nul] == init[i]
    ensures var p := q + [tail]; var units := init + [stem + [Nul]];
            forall i | 0 <= i < |units| :: p[i] + [Nul] == units[i]
  {
  }

  lemma UnitConcat(a: seq<Byte>, u: seq<Byte>, tail: seq<Byte>)
    requires IsUnit(u)
    ensures a + u + tail == a + u[..|u| - 1] + [Nul] + tail
  {
    assert u == u[..|u| - 1] + [Nul];
  }

  // ---------------------------------------------------------------------
  // Properties of the packing

  /** Bank numbers run from `start` upwards without gaps. */
  lemma {:induction false} PackNumbers(lines: seq<seq<Byte>>, start: int)
    ensures var p := PackLines(lines, start);
            p.number == start + |p.closed|
            && forall i | 0 <= i < |p.closed| :: p.closed[i].number == start + i
    ensures var banks := Banks(PackLines(lines, start));
            forall i | 0 <= i < |banks| :: banks[i].number == start + i
    decreases |lines|
  {
    if lines != [] {
      PackNumbers(lines[..|lines| - 1], start);
    }
  }

  /** Every one of the closed banks ends with exactly one sentinel after its text. */
  predicate Sealed(closed: seq<Bank>)
  {
    forall i | 0 <= i < |closed| :: closed[i].data == DropLast(closed[i].data) + [Sentinel]
  }

  /** Every bank but the last ends with exactly one sentinel after its text. */
  lemma {:induction false} PackSentinels(lines: seq<seq<Byte>>, start: int)
    ensures Sealed(PackLines(lines, start).closed)
    decreases |lines|
  {
    if lines != [] {
      PackSentinels(lines[..|lines| - 1], start);
      var q := PackLines(lines[..|lines| - 1], start);
      var d := q.data + [Sentinel];
      assert DropLast(d) == q.data;
      var line := lines[|lines| - 1];
      if |q.data| + |line| > BankMax {
        var closed := q.closed + [Bank(q.number, d)];
        assert PackLines(lines, start).closed == closed;
        forall i | 0 <= i < |closed| ensures closed[i].data == DropLast(closed[i].data) + [Sentinel] {
          if i < |q.closed| {
            assert closed[i] == q.closed[i];
          }
        }
      }
    }
  }

  /** Nothing is lost, added or reordered: the banks' text is the lines' text. */
  lemma {:induction false} PackText(lines: seq<seq<Byte>>, start: int)
    ensures var p := PackLines(lines, start); ClosedText(p.closed) + p.data == Flatten(lines)
    ensures Text(Banks(PackLines(lines, start))) == Flatten(lines)
    decreases |lines|
  {
    var p := PackLines(lines, start);
    if lines != [] {
      var init := lines[..|lines| - 1];
      var line := lines[|lines| - 1];
      var q := PackLines(init, start);
      PackText(init, start);
      if |q.data| + |line| > BankMax {
        var closed := q.closed + [Bank(q.number, q.data + [Sentinel])];
        assert closed[..|closed| - 1] == q.closed;
        assert DropLast(q.data + [Sentinel]) == q.data;
      }
    }
    assert Banks(p)[..|Banks(p)| - 1] == p.closed;
  }

  /** If no line unit is longer than BankMax, no bank's text is either, so
      every bank fits in a 16 KiB ROM bank with its sentinel. */
  lemma {:induction false} PackBound(lines: seq<seq<Byte>>, start: int)
    requires forall k | 0 <= k < |lines| :: |lines[k]| <= BankMax
    ensures var p := PackLines(lines, start);
            |p.data| <= BankMax && forall i | 0 <= i < |p.closed| :: |p.closed[i].data| <= BankMax + 1
    ensures var banks := Banks(PackLines(lines, start));
            forall i | 0 <= i < |banks| :: |banks[i].data| <= 0x4000
    decreases |lines|
  {
    if lines != [] {
      PackBound(lines[..|lines| - 1], start);
    }
  }

  /** Every bank's text is a run of whole line units, and the open bank is
      empty only before the first bank is closed. */
  predicate WholeUnits(p: Packer)
  {
    Terminated(p.data) && (p.closed != [] ==> p.data != [])
    && forall i | 0 <= i < |p.closed| :: Terminated(DropLast(p.closed[i].data))
  }

  /** Every closed bank was closed because the next bank's first unit did not fit after its text. */
  predicate ClosedWhenFull(p: Packer)
  {
    forall i | 0 <= i < |p.closed| :: |DropLast(p.closed[i].data)| + |FirstUnit(NextText(p, i))| > BankMax
  }

  /** Banks hold whole line units, and a bank is closed only when the first
      unit of the next bank would not have fitted after its text. */
  lemma {:induction false} PackGreedy(lines: seq<seq<Byte>>, start: int)
    requires AllUnits(lines)
    ensures WholeUnits(PackLines(lines, start)) && ClosedWhenFull(PackLines(lines, start))
    decreases |lines|
  {
    if lines != [] {
      var init := lines[..|lines| - 1];
      var line := lines[|lines| - 1];
      assert IsUnit(line);
      assert AllUnits(init) by {
        forall k | 0 <= k < |init| ensures IsUnit(init[k]) {
          assert init[k] == lines[k];
        }
      }
      PackGreedy(init, start);
      var q := PackLines(init, start);
      if |q.data| + |line| > BankMax {
        GreedyClose(q, line);
      } else {
        GreedyAppend(q, line);
      }
    }
  }

  /** Closing the open bank for a unit that does not fit keeps both properties. */
  lemma GreedyClose(q: Packer, line: seq<Byte>)
    requires WholeUnits(q) && ClosedWhenFull(q) && IsUnit(line) && |q.data| + |line| > BankMax
    ensures WholeUnits(AddLine(q, line)) && ClosedWhenFull(AddLine(q, line))
  {
    var p := AddLine(q, line);
    FirstUnitOfUnit(line, []);
    assert line + [] == line;
    assert DropLast(q.data + [Sentinel]) == q.data;
    forall i | 0 <= i < |p.closed| ensures Terminated(DropLast(p.closed[i].data)) {
      if i < |q.closed| {
        assert p.closed[i] == q.closed[i];
      }
    }
    forall i | 0 <= i < |p.closed|
      ensures |DropLast(p.closed[i].data)| + |FirstUnit(NextText(p, i))| > BankMax
    {
      if i + 1 < |q.closed| {
        assert p.closed[i] == q.closed[i] && p.closed[i + 1] == q.closed[i + 1];
      } else if i + 1 == |q.closed| {
        assert p.closed[i] == q.closed[i];
        assert NextText(p, i) == q.data;
      }
    }
  }

  /** Appending a unit that fits keeps both properties. */
  lemma GreedyAppend(q: Packer, line: seq<Byte>)
    requires WholeUnits(q) && ClosedWhenFull(q) && IsUnit(line) && |q.data| + |line| <= BankMax
    ensures WholeUnits(AddLine(q, line)) && ClosedWhenFull(AddLine(q, line))
  {
    var p := AddLine(q, line);
    TerminatedAppend(q.data, line);
    if q.closed != [] {
      FirstUnitOfPrefix(q.data, line);
      assert forall i | 0 <= i < |p.closed| :: NextText(p, i) == NextText(q, i) || NextText(p, i) == p.data;
    }
  }

  lemma TerminatedAppend(a: seq<Byte>, b: seq<Byte>)
    requires Terminated(a) && Terminated(b)
    ensures Terminated(a + b)
  {
    if b == [] {
      assert a + b == a;
    }
  }

  /** A unit followed by anything starts with that unit. */
  lemma FirstUnitOfUnit(u: seq<Byte>, rest: seq<Byte>)
    requires IsUnit(u)
    ensures FirstUnit(u + rest) == u
  {
    var s := u + rest;
    assert s[|u| - 1] == Nul;
    var k := IndexOf(s, Nul);
    assert s[..|u| - 1] == u[..|u| - 1];
    assert k == |u| - 1;
    assert s[..k + 1] == u;
  }

  /** Appending text after a terminator leaves the first unit alone. */
  lemma FirstUnitOfPrefix(a: seq<Byte>, b: seq<Byte>)
    requires a != [] && Terminated(a)
    ensures FirstUnit(a + b) == FirstUnit(a)
  {
    assert a[|a| - 1] in a;
    var k := IndexOf(a, Nul);
    var s := a + b;
    assert s[..k] == a[..k] && s[k] == Nul;
    assert s[..k + 1] == a[..k + 1];
  }

  /** A line unit longer than BankMax at the very start yields a first bank
      holding nothing but the sentinel, not an error. */
  lemma OversizeFirstUnit(line: seq<Byte>, start: int)
    requires |line| > BankMax
    ensures Banks(PackLines([line], start)) == [Bank(start, [Sentinel]), Bank(start + 1, line)]
  {
    assert [line][..0] == [];
    assert [] + [Sentinel] == [Sentinel];
  }

  // ---------------------------------------------------------------------
  // The whole text

  /** `process_text`: wraps the input with `process_lines` and packs the
      stream into banks numbered from `start`. */
  method ProcessText(widths: seq<nat>, input: seq<seq<Byte>>, start: int)
    returns (r: Result<seq<Bank>>, ghost stream: seq<Byte>, ghost segs: seq<seq<Byte>>)
    requires |widths| >= 96
    ensures r.Ok? ==> |segs| == |input| && stream == Flatten(segs) + Padding
    ensures r.Ok? ==> forall i | 0 <= i < |input| :: LineOutput(widths, Sanitize(input[i]), segs[i])
    ensures r.Ok? ==> r.value == Banks(PackLines(Units(stream), start))
    ensures r.Ok? ==> Text(r.value) == stream && Clean(stream) && Sentinel !in stream
    ensures r.Ok? ==> |stream| >= 20 && stream[|stream| - 20..] == Padding
    ensures r.Ok? ==> var p := PackLines(Units(stream), start);
                      Sealed(p.closed) && WholeUnits(p) && ClosedWhenFull(p)
    ensures (forall i | 0 <= i < |input| :: NoWideWords(widths, Sanitize(input[i])) || DashFits(widths, Sanitize(input[i])))
            ==> r.Ok?
  {
    var lines;
    lines, segs := ProcessLines(widths, input);
    if lines.Fail? {
      return Fail(lines.error), [], segs;
    }
    stream := Flatten(lines.value);
    assert stream == Flatten(segs) + Padding;
    assert stream[|stream| - 1] == Nul;
    var banks := PackBanks(lines.value, start);
    StreamText(stream, start);
    UnitsAreUnits(stream);
    PackGreedy(Units(stream), start);
    PackSentinels(Units(stream), start);
    assert Sentinel !in stream;
    return Ok(banks.value), stream, segs;
  }

  /** The text of the packed banks of a terminated stream is the stream. */
  lemma StreamText(s: seq<Byte>, start: int)
    requires Terminated(s)
    ensures Text(Banks(PackLines(Units(s), start))) == s
  {
    PackText(Units(s), start);
    FlattenUnits(s);
  }

  /** Every unit cut from a stream is a line unit: one terminator, at its end. */
  lemma UnitsAreUnits(s: seq<Byte>)
    ensures AllUnits(Units(s))
  {
    var p := Split(s, Nul);
    SplitPieces(s, Nul);
    forall k | 0 <= k < |Units(s)| ensures IsUnit(Units(s)[k]) {
      assert Nul !in p[k];
      assert (p[k] + [Nul])[..|p[k]|] == p[k];
    }
  }

  /** A terminated stream is the concatenation of its line units. */
  lemma FlattenUnits(s: seq<Byte>)
    requires Terminated(s)
    ensures Flatten(Units(s)) == s
  {
    var p := Split(s, Nul);
    if s == [] {
      assert Units(s) == [];
    } else {
      assert s == s[..|s| - 1] + [Nul];
      SplitAppendSep(s[..|s| - 1], Nul);
      assert p[|p| - 1] == [];
      JoinSplit(s, Nul);
      FlattenPieces(p);
    }
  }

  /** Pieces closed by terminators and an empty last piece join as their units. */
  lemma {:induction false} FlattenPieces(p: seq<seq<Byte>>)
    requires |p| >= 1
    ensures Flatten(seq(|p| - 1, i requires 0 <= i < |p| - 1 => p[i] + [Nul])) + p[|p| - 1] == Join(p, Nul)
    decreases |p|
  {
    var us := seq(|p| - 1, i requires 0 <= i < |p| - 1 => p[i] + [Nul]);
    if |p| == 1 {
      assert us == [];
    } else {
      var init := p[..|p| - 1];
      var vs := seq(|init| - 1, i requires 0 <= i < |init| - 1 => init[i] + [Nul]);
      FlattenPieces(init);
      assert us == vs + [init[|init| - 1] + [Nul]];
      FlattenAppend(vs, [init[|init| - 1] + [Nul]]);
      FlattenSingle(init[|init| - 1] + [Nul]);
    }
  }
}
