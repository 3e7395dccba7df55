/** The hexadecimal body of a dumped chunk, and reading it back. */
module HexDump {
  import opened Words

  const DIGITS := "0123456789ABCDEF"

  function Digit(d: nat): char
    requires d < 16
  {
    DIGITS[d]
  }

  function Cell(b: byte): (s: string)
    ensures |s| == 3
  {
    [' ', Digit(b / 16), Digit(b % 16)]
  }

  function Cells(bs: seq<byte>): (s: string)
    ensures |s| == 3 * |bs|
  {
    if |bs| == 0 then "" else Cell(bs[0]) + Cells(bs[1..])
  }

  /** The bytes of the first line, and of the others. */
  function Front(bs: seq<byte>): seq<byte> { if |bs| <= 16 then bs else bs[..16] }
  function Behind(bs: seq<byte>): seq<byte> { if |bs| <= 16 then [] else bs[16..] }

  /** The lines of a body: sixteen bytes each, the rest in the last. */
  function Lines(bs: seq<byte>): seq<string>
    decreases |bs|
  {
    if |bs| == 0 then [] else [Cells(Front(bs))] + Lines(Behind(bs))
  }

  function Join(lines: seq<string>): string {
    if |lines| == 0 then "" else lines[0] + "\n" + Join(lines[1..])
  }

  lemma JoinLines(bs: seq<byte>)
    requires |bs| > 0
    ensures Join(Lines(bs)) == Cells(Front(bs)) + "\n" + Join(Lines(Behind(bs)))
  {
    hide Cells;
    assert Lines(bs)[1..] == Lines(Behind(bs));
  }

  /** The line break behind the `n`-th byte. */
  function Break(n: nat): string { if n % 16 == 0 then "\n" else "" }

  /** What the loop has written after some bytes. */
  function Written(bs: seq<byte>): string {
    if |bs| == 0 then "" else Written(bs[..|bs| - 1]) + Cell(bs[|bs| - 1]) + Break(|bs|)
  }

  lemma WrittenSnoc(bs: seq<byte>, b: byte)
    ensures Written(bs + [b]) == Written(bs) + Cell(b) + Break(|bs| + 1)
  {
    hide Cell, Break;
    assert (bs + [b])[..|bs|] == bs;
  }

  /** One `fwrite` of three or four characters of the prepared buffer. */
  method PutByte(b: byte, buf: array<char>, pos: nat) returns (piece: string)
    requires buf.Length == 4 && buf[0] == ' ' && buf[3] == '\n'
    modifies buf
    ensures buf[0] == ' ' && buf[3] == '\n' && piece == Cell(b) + Break(pos)
  {
    hide Digit;
    buf[1] := Digit(b / 16);
    buf[2] := Digit(b % 16);
    piece := buf[..if pos % 16 == 0 then 4 else 3];
    assert buf[..3] == Cell(b) && buf[..4] == Cell(b) + "\n";
  }

  /** The body part of `dump`. */
  method DumpBody(bytes: seq<byte>) returns (out: string)
    ensures out == Join(Lines(bytes)) + "\n"
  {
    hide Written, Cell, Join, Lines, Break;
    out := "";
    var buf := new char[4];
    buf[0], buf[1], buf[2], buf[3] := ' ', 'X', 'X', '\n';
    var pos := 1;
    var k := 0;
    NothingWritten();
    while k < |bytes|
      invariant 0 <= k <= |bytes| && pos == k + 1
      invariant buf[0] == ' ' && buf[3] == '\n' && out == Written(bytes[..k])
    {
      var piece := PutByte(bytes[k], buf, pos);
      WrittenSnoc(bytes[..k], bytes[k]);
      assert bytes[..k + 1] == bytes[..k] + [bytes[k]];
      ThreeParts(out, Cell(bytes[k]), Break(pos));
      out := out + piece;
      k := k + 1;
      pos := pos + 1;
    }
    assert bytes[..|bytes|] == bytes;
    WrittenIsLines(bytes);
    if pos % 16 != 1 {
      out := out + "\n";
    }
    out := out + "\n";
  }

  lemma NothingWritten()
    ensures Written([]) == ""
  {
  }

  lemma ThreeParts(a: string, b: string, c: string)
    ensures a + (b + c) == a + b + c
  {
  }

  lemma {:induction false} CellsSnoc(bs: seq<byte>, b: byte)
    ensures Cells(bs + [b]) == Cells(bs) + Cell(b)
  {
    hide Cell;
    if |bs| == 0 {
      assert (bs + [b])[1..] == [] && Cells([]) == "";
    } else {
      assert (bs + [b])[1..] == bs[1..] + [b];
      CellsSnoc(bs[1..], b);
      ThreeParts(Cell(bs[0]), Cells(bs[1..]), Cell(b));
    }
  }

  lemma {:induction false} WrittenShort(bs: seq<byte>)
    requires |bs| <= 16
    ensures Written(bs) == Cells(bs) + if |bs| == 16 then "\n" else ""
  {
    hide Cell;
    if |bs| > 0 {
      var n := |bs|;
      WrittenShort(bs[..n - 1]);
      CellsSnoc(bs[..n - 1], bs[n - 1]);
      assert bs == bs[..n - 1] + [bs[n - 1]];
    }
  }

  /** Full lines do not change what is written behind them. */
  lemma {:induction false} WrittenBehind(first: seq<byte>, bs: seq<byte>)
    requires |first| == 16
    ensures Written(first + bs) == Written(first) + Written(bs)
    decreases |bs|
  {
    hide Written, Cell, Break;
    NothingWritten();
    if |bs| == 0 {
      assert first + bs == first;
    } else {
      var front, last := bs[..|bs| - 1], bs[|bs| - 1];
      assert bs == front + [last] && first + bs == (first + front) + [last];
      WrittenBehind(first, front);
      WrittenSnoc(front, last);
      WrittenSnoc(first + front, last);
      SameBreak(|bs|);
      FourParts(Written(first), Written(front), Cell(last), Break(|bs|));
    }
  }

  lemma SameBreak(n: nat)
    ensures Break(16 + n) == Break(n)
  {
  }

  lemma FourParts(a: string, b: string, c: string, d: string)
    ensures (a + b) + c + d == a + (b + c + d)
  {
  }

  lemma {:induction false} WrittenIsLines(bs: seq<byte>)
    ensures Written(bs) + (if |bs| % 16 != 0 then "\n" else "") == Join(Lines(bs))
    decreases |bs|
  {
    hide Written, Cells, Join, Lines, Break;
    if |bs| == 0 {
      NothingWritten();
      NoLines();
    } else if |bs| <= 16 {
      WrittenShort(bs);
      JoinLines(bs);
      NoLines();
      assert Cells(bs) + "\n" + "" == Cells(bs) + "\n";
    } else {
      var first, rest := bs[..16], bs[16..];
      assert bs == first + rest;
      WrittenBehind(first, rest);
      WrittenShort(first);
      WrittenIsLines(rest);
      JoinLines(bs);
      ThreeParts(Cells(first) + "\n", Written(rest), if |rest| % 16 != 0 then "\n" else "");
    }
  }

  lemma NoLines()
    ensures Join(Lines([])) == "" && Lines([]) == []
  {
  }

  /** Every line but the last holds sixteen bytes, the last at least one; the lines are as many
      as that takes. */
  lemma {:induction false} LinesAreFull(bs: seq<byte>)
    ensures |Lines(bs)| == (|bs| + 15) / 16
    ensures forall i :: 0 <= i < |Lines(bs)| - 1 ==> |Lines(bs)[i]| == 48
    ensures |bs| > 0 ==> var last := Lines(bs)[|Lines(bs)| - 1]; 3 <= |last| <= 48
    decreases |bs|
  {
    hide Cell;
    if |bs| > 16 {
      LinesAreFull(Behind(bs));
      var rest := Lines(Behind(bs));
      forall i | 0 <= i < |Lines(bs)| - 1 ensures |Lines(bs)[i]| == 48 {
        assert i > 0 ==> Lines(bs)[i] == rest[i - 1];
      }
      assert Lines(bs)[|Lines(bs)| - 1] == rest[|rest| - 1];
    }
  }

  // ---- Reading ----

  function DigitValue(c: char): Option<nat> {
    if '0' <= c <= '9' then Some(c as nat - '0' as nat)
    else if 'A' <= c <= 'F' then Some(10 + c as nat - 'A' as nat)
    else None
  }

  /** Reads bytes up to the first empty line; the second part is what follows it. */
  function Read(s: string, lineStart: bool): Option<(seq<byte>, string)>
    decreases |s|
  {
    if |s| == 0 then None
    else if s[0] == '\n' then if lineStart then Some(([], s[1..])) else Read(s[1..], true)
    else if |s| < 3 || s[0] != ' ' || DigitValue(s[1]).None? || DigitValue(s[2]).None? then None
    else match Read(s[3..], false)
      case None => None
      case Some(rest) => Some(([16 * DigitValue(s[1]).value + DigitValue(s[2]).value] + rest.0, rest.1))
  }

  lemma DigitIsRead(d: nat)
    requires d < 16
    ensures DigitValue(Digit(d)) == Some(d)
  {
  }

  lemma CellIsRead(b: byte, tail: string, lineStart: bool)
    requires Read(tail, false).Some?
    ensures Read(Cell(b) + tail, lineStart) == Some(([b] + Read(tail, false).value.0, Read(tail, false).value.1))
  {
    DigitIsRead(b / 16);
    DigitIsRead(b % 16);
    hide Digit, DigitValue;
    assert (Cell(b) + tail)[3..] == tail;
  }

  /** The bytes of a line in front of what else is read. */
  lemma {:induction false} CellsAreRead(bs: seq<byte>, tail: string, lineStart: bool)
    requires |bs| > 0 && Read(tail, false).Some?
    ensures Read(Cells(bs) + tail, lineStart) == Some((bs + Read(tail, false).value.0, Read(tail, false).value.1))
    decreases |bs|
  {
    hide Read, Cell;
    var more := Cells(bs[1..]) + tail;
    assert Cells(bs) + tail == Cell(bs[0]) + more;
    assert bs == [bs[0]] + bs[1..];
    if |bs| == 1 {
      assert bs[1..] == [] && Cells([]) == "" && more == tail;
      assert [bs[0]] == bs;
    } else {
      CellsAreRead(bs[1..], tail, false);
      assert [bs[0]] + (bs[1..] + Read(tail, false).value.0) == bs + Read(tail, false).value.0;
    }
    CellIsRead(bs[0], more, lineStart);
  }

  lemma LineBreakIsRead(s: string)
    ensures Read("\n" + s, false) == Read(s, true) && Read("\n" + s, true) == Some(([], s))
  {
    assert ("\n" + s)[1..] == s;
  }

  /** What `dump` writes for any bytes, and whatever follows it, is read back as those bytes
      and what follows: one empty line ends the chunk. */
  lemma {:induction false} BodyRoundTrip(bs: seq<byte>, rest: string)
    ensures Read(Join(Lines(bs)) + "\n" + rest, true) == Some((bs, rest))
    decreases |bs|
  {
    hide Read, Cells, Lines, Join;
    LineBreakIsRead(rest);
    if |bs| > 0 {
      var more := Join(Lines(Behind(bs))) + "\n" + rest;
      BodyRoundTrip(Behind(bs), rest);
      LineBreakIsRead(more);
      CellsAreRead(Front(bs), "\n" + more, true);
      JoinLines(bs);
      RegroupLine(Cells(Front(bs)), Join(Lines(Behind(bs))), rest);
      assert Front(bs) + Behind(bs) == bs;
    } else {
      NoLines();
      assert "" + "\n" + rest == "\n" + rest;
    }
  }

  lemma RegroupLine(line: string, lines: string, rest: string)
    ensures (line + "\n" + lines) + "\n" + rest == line + ("\n" + (lines + "\n" + rest))
  {
  }
}
