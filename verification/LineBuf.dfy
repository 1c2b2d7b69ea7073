/** Splitting a stream into lines as it arrives (src/core/linebuf.c). */
module LineBuf {
  import opened Units
  import opened Wrappers

  const NUL: Byte := 0
  const LF: Byte := 10
  const CR: Byte := 13
  const EINVAL := 22
  const ENOMEM := 12

  // ----- Reference: lines of a whole stream

  /** The position of the first `b`, or the length. */
  function Find(s: seq<Byte>, b: Byte): (i: nat)
    ensures i <= |s| && (i < |s| ==> s[i] == b) && b !in s[..i]
  {
    if s == [] then 0
    else if s[0] == b then 0
    else
      var j := Find(s[1..], b);
      assert s[..j + 1] == [s[0]] + s[1..][..j];
      j + 1
  }

  function TrimCr(line: seq<Byte>): seq<Byte> {
    if line != [] && line[|line| - 1] == CR then line[..|line| - 1] else line
  }

  /** The complete lines of a stream, each without its LF and at most one CR before it. */
  ghost function Lines(s: seq<Byte>): seq<seq<Byte>> {
    var i := Find(s, LF);
    if i == |s| then [] else [TrimCr(s[..i])] + Lines(s[i + 1..])
  }

  /** What follows the last LF. */
  ghost function Partial(s: seq<Byte>): seq<Byte> {
    var i := Find(s, LF);
    if i == |s| then s else Partial(s[i + 1..])
  }

  lemma FindIs(s: seq<Byte>, b: Byte, i: nat)
    requires i <= |s| && b !in s[..i] && (i < |s| ==> s[i] == b)
    ensures Find(s, b) == i
  {
    var j := Find(s, b);
    forall k | 0 <= k < i
      ensures s[k] != b
    {
      assert s[..i][k] == s[k];
    }
    forall k | 0 <= k < j
      ensures s[k] != b
    {
      assert s[..j][k] == s[k];
    }
  }

  /** A stream whose first LF is at `i`. */
  lemma LinesAt(s: seq<Byte>, i: nat)
    requires i < |s| && LF !in s[..i] && s[i] == LF
    ensures Lines(s) == [TrimCr(s[..i])] + Lines(s[i + 1..]) && Partial(s) == Partial(s[i + 1..])
  {
    hide TrimCr;
    FindIs(s, LF, i);
  }

  /** A line ends at the first LF (octet 10), and a CR (octet 13) before it is not part of the line. */
  lemma LinesLaw(a: seq<Byte>, b: seq<Byte>)
    requires 10 !in a
    ensures Lines(a + [13, 10] + b) == [a] + Lines(b)
    ensures a == [] || a[|a| - 1] != 13 ==> Lines(a + [10] + b) == [a] + Lines(b)
  {
    hide Lines, TrimCr;
    TrimCrIs(a);
    LineSplit(a + [13], b);
    assert a + [13, 10] + b == a + [13] + [10] + b;
    LineSplit(a, b);
  }

  lemma TrimCrIs(a: seq<Byte>)
    ensures TrimCr(a + [13]) == a && (a == [] || a[|a| - 1] != 13 ==> TrimCr(a) == a)
  {
    assert (a + [13])[..|a|] == a;
  }

  lemma LineSplit(a: seq<Byte>, b: seq<Byte>)
    requires 10 !in a
    ensures Lines(a + [10] + b) == [TrimCr(a)] + Lines(b)
  {
    hide Lines, TrimCr;
    var s := a + [10] + b;
    assert s[..|a|] == a && s[|a| + 1..] == b;
    LinesAt(s, |a|);
  }

  lemma LinesNone(s: seq<Byte>)
    requires LF !in s
    ensures Lines(s) == [] && Partial(s) == s
  {
    hide TrimCr;
    assert s[..|s|] == s;
    FindIs(s, LF, |s|);
  }

  lemma {:induction false} PartialUnterminated(s: seq<Byte>)
    ensures LF !in Partial(s)
  {
    if Find(s, LF) < |s| {
      PartialUnterminated(s[Find(s, LF) + 1..]);
    } else {
      assert s[..|s|] == s;
    }
  }

  /** Lines may be split off a stream as soon as they are complete. */
  lemma {:induction false} LinesAppend(a: seq<Byte>, b: seq<Byte>)
    ensures Lines(a + b) == Lines(a) + Lines(Partial(a) + b)
    ensures Partial(a + b) == Partial(Partial(a) + b)
  {
    hide Lines, Partial, TrimCr;
    var i := Find(a, LF);
    if i < |a| {
      assert (a + b)[..i] == a[..i] && (a + b)[i + 1..] == a[i + 1..] + b;
      LinesAt(a, i);
      LinesAt(a + b, i);
      LinesAppend(a[i + 1..], b);
    } else {
      assert a[..|a|] == a;
      LinesNone(a);
    }
  }

  /** Adding bytes up to and including an LF completes one line; adding others completes none. */
  lemma LinesStep(s: seq<Byte>, more: seq<Byte>)
    requires LF !in more || Find(more, LF) == |more| - 1
    ensures LF !in more ==> Lines(s + more) == Lines(s) && Partial(s + more) == Partial(s) + more
    ensures LF in more ==> Lines(s + more) == Lines(s) + [TrimCr(Partial(s) + more[..|more| - 1])]
    ensures LF in more ==> Partial(s + more) == []
  {
    hide Lines, Partial, TrimCr;
    var p := Partial(s);
    PartialUnterminated(s);
    LinesAppend(s, more);
    if LF in more {
      var i := |p| + |more| - 1;
      assert (p + more)[..i] == p + more[..|more| - 1];
      assert (p + more)[i + 1..] == [];
      LinesAt(p + more, i);
      LinesNone([]);
    } else {
      LinesNone(p + more);
    }
  }

  // ----- The buffer

  /** Lines as they lie in the buffer: each followed by a NUL. */
  ghost function Joined(lines: seq<seq<Byte>>): seq<Byte> {
    if lines == [] then [] else lines[0] + [NUL] + Joined(lines[1..])
  }

  lemma {:induction false} JoinedAppend(lines: seq<seq<Byte>>, line: seq<Byte>)
    ensures Joined(lines + [line]) == Joined(lines) + line + [NUL]
  {
    if lines == [] {
      assert [line][1..] == [];
    } else {
      JoinedAppend(lines[1..], line);
      assert (lines + [line])[1..] == lines[1..] + [line];
    }
  }

  lemma JoinedEnd(lines: seq<seq<Byte>>)
    requires lines != []
    ensures Joined(lines) == Joined(lines[..|lines| - 1]) + lines[|lines| - 1] + [NUL]
  {
    JoinedAppend(lines[..|lines| - 1], lines[|lines| - 1]);
    assert lines[..|lines| - 1] + [lines[|lines| - 1]] == lines;
  }

  lemma JoinedEnds(lines: seq<seq<Byte>>)
    ensures Joined(lines) == [] || Joined(lines)[|Joined(lines)| - 1] == NUL
  {
    hide Joined;
    if lines == [] {
      JoinedNone();
    } else {
      JoinedEnd(lines);
    }
  }

  lemma JoinedNone()
    ensures Joined([]) == []
  {}

  /** The byte before the NUL that ends a line is a CR only if that is the last byte of the line. */
  lemma Terminated(b: seq<Byte>, line: seq<Byte>)
    requires b == [] || b[|b| - 1] == NUL
    ensures var d := b + line + [NUL];
            if |d| > 1 && d[|d| - 2] == CR
            then d[..|d| - 1][|d| - 2 := NUL] == b + TrimCr(line) + [NUL]
            else d == b + TrimCr(line) + [NUL]
  {}

  ghost predicate NulFree(lines: seq<seq<Byte>>) {
    forall l :: l in lines ==> NUL !in l
  }

  /** The bytes up to and including the first LF, or all of them. */
  function Consumable(chunk: seq<Byte>): (n: nat)
    ensures n <= |chunk|
  {
    var i := Find(chunk, LF);
    if i < |chunk| then i + 1 else |chunk|
  }

  class LineBuffer {
    var data: seq<Byte>
    var len: nat
    var consumed: nat
    /** The stream consumed so far. */
    ghost var stream: seq<Byte>

    /** The buffer holds the complete lines of the stream and what follows them. */
    ghost predicate Valid()
      reads this
    {
      && len <= |data| && NUL !in stream
      && data[..len] == Joined(Lines(stream)) + Partial(stream)
    }

    constructor ()
      ensures Valid() && stream == [] && consumed == 0
    {
      data, len, consumed, stream := [], 0, 0, [];
      new;
      LinesNone([]);
    }

    /** Copies in bytes and, if they end a line, overwrites its LF, and a CR before that, by a NUL. */
    method TakeIn(more: seq<Byte>, eol: bool)
      requires Valid() && NUL !in more && (if eol then LF in more && Find(more, LF) == |more| - 1 else LF !in more)
      modifies `data, `len, `stream
      ensures Valid() && stream == old(stream) + more
    {
      hide Lines, Partial, TrimCr, Joined, Find;
      ghost var b, p := Joined(Lines(stream)), Partial(stream);
      LinesStep(stream, more);
      data := data[..len] + more + [NUL];
      len := len + |more|;
      assert data[..len] == b + p + more;
      if eol {
        ghost var line := p + more[..|more| - 1];
        JoinedAppend(Lines(stream), TrimCr(line));
        JoinedEnds(Lines(stream));
        data := data[len - 1 := NUL];
        assert data[..len] == b + line + [NUL];
        Terminated(b, line);
        if len > 1 && data[len - 2] == CR {
          len := len - 1;
          data := data[len - 1 := NUL];
          assert data[..len] == (b + line + [NUL])[..len][len - 1 := NUL];
        }
      }
      stream := stream + more;
    }

    /** line_buffer(): takes in bytes up to the first LF; `memory` tells whether the buffer could be enlarged. */
    method Buffer(chunk: seq<Byte>, memory: bool) returns (r: int)
      requires Valid()
      modifies this
      ensures Valid()
      ensures r < 0 <==> NUL in chunk[..Consumable(chunk)] || !memory
      ensures r >= 0 ==> r == Consumable(chunk) == consumed && stream == old(stream) + chunk[..r]
      ensures r < 0 ==> unchanged(this)
    {
      hide Lines, Partial, Joined;
      var eol := Find(chunk, LF);
      var consume := Consumable(chunk);
      var more := chunk[..consume];
      var nul := Find(more, NUL);
      if nul < |more| {
        return -EINVAL;
      }
      assert more[..|more|] == more;
      if !memory {
        return -ENOMEM;
      }
      TakeIn(more, eol < |chunk|);
      consumed := consume;
      r := consume;
    }

    /** buffered_line(): the line that the last call of line_buffer() completed, if it did. */
    method BufferedLine() returns (r: Option<seq<Byte>>)
      requires Valid()
      ensures r.Some? <==> consumed != 0 && Lines(stream) != [] && Partial(stream) == []
      ensures r.Some? ==> Lines(stream) != [] && r.value == Lines(stream)[|Lines(stream)| - 1]
    {
      hide Lines, Partial, Joined;
      ghost var lines := Lines(stream);
      LinesNulFree(stream);
      LastByte(lines, Partial(stream), data[..len]);
      if len == 0 || consumed == 0 || data[len - 1] != NUL {
        return None;
      }
      ghost var last := lines[|lines| - 1];
      ghost var base := len - 1 - |last|;
      LastLine(lines, data[..len]);
      WithinPrefix(data, len, base, len - 1);
      var start := LineStart(base);
      r := Some(data[start..len - 1]);
    }

    /** Goes back from the NUL at the end to just after the one before it, or to the start. */
    method LineStart(ghost base: nat) returns (start: nat)
      requires base < len <= |data| && NUL !in data[base..len - 1] && (base > 0 ==> data[base - 1] == NUL)
      ensures start == base
    {
      start := len - 1;
      while start > 0 && data[start - 1] != NUL
        invariant base <= start <= len - 1
      {
        start := start - 1;
      }
    }
  }

  lemma WithinPrefix(s: seq<Byte>, n: nat, a: nat, b: nat)
    requires a <= b <= n <= |s|
    ensures s[..n][a..b] == s[a..b]
  {
    forall k | 0 <= k < b - a
      ensures s[..n][a..b][k] == s[a..b][k]
    {}
  }

  lemma {:induction false} LinesNulFree(s: seq<Byte>)
    requires NUL !in s
    ensures NulFree(Lines(s)) && NUL !in Partial(s)
  {
    if Find(s, LF) < |s| {
      LinesNulFree(s[Find(s, LF) + 1..]);
    }
  }

  /** The buffer ends with a NUL just when it ends with a complete line. */
  lemma LastByte(lines: seq<seq<Byte>>, partial: seq<Byte>, d: seq<Byte>)
    requires NUL !in partial && d == Joined(lines) + partial
    ensures d != [] && d[|d| - 1] == NUL <==> lines != [] && partial == []
  {
    hide Joined;
    JoinedEnds(lines);
    if lines == [] {
      JoinedNone();
    } else {
      JoinedEnd(lines);
    }
  }

  /** The last line lies between two NULs, or at the start of the buffer. */
  lemma LastLine(lines: seq<seq<Byte>>, d: seq<Byte>)
    requires lines != [] && NulFree(lines) && d == Joined(lines) + []
    ensures var last := lines[|lines| - 1];
            var base := |d| - 1 - |last|;
            && base >= 0 && d[base..|d| - 1] == last && NUL !in last && (base > 0 ==> d[base - 1] == NUL)
  {
    hide Joined;
    JoinedEnd(lines);
    JoinedEnds(lines[..|lines| - 1]);
  }

  // ----- Streams that arrive in pieces

  ghost function Concat(chunks: seq<seq<Byte>>): seq<Byte> {
    if chunks == [] then [] else chunks[0] + Concat(chunks[1..])
  }

  /** Feeds one piece to the buffer, collecting the lines that it completes. */
  method FeedChunk(b: LineBuffer, chunk: seq<Byte>) returns (lines: seq<seq<Byte>>, rc: int)
    requires b.Valid()
    modifies b
    ensures b.Valid() && (NUL !in chunk <==> rc == 0)
    ensures rc == 0 ==> b.stream == old(b.stream) + chunk && Lines(b.stream) == Lines(old(b.stream)) + lines
  {
    hide Lines, Partial, Joined, Find, Consumable;
    lines := [];
    var rest := chunk;
    while rest != []
      invariant b.Valid() && b.stream + rest == old(b.stream) + chunk
      invariant Lines(b.stream) == Lines(old(b.stream)) + lines && (NUL !in chunk ==> NUL !in rest)
      decreases |rest|
    {
      ghost var was := b.stream;
      var r := b.Buffer(rest, true);
      if r < 0 {
        return lines, r;
      }
      TakenPart(rest);
      LinesStep(was, rest[..r]);
      var line := b.BufferedLine();
      if line.Some? {
        lines := lines + [line.value];
      }
      assert rest == rest[..r] + rest[r..];
      rest := rest[r..];
    }
    assert b.stream == old(b.stream) + chunk;
    assert forall i :: 0 <= i < |chunk| ==> b.stream[|old(b.stream)| + i] == chunk[i];
    rc := 0;
  }

  lemma TakenPart(rest: seq<Byte>)
    requires rest != []
    ensures 0 < Consumable(rest)
    ensures LF !in rest[..Consumable(rest)] || Find(rest[..Consumable(rest)], LF) == Consumable(rest) - 1
  {
    var i := Find(rest, LF);
    if i < |rest| {
      assert rest[..i + 1][..i] == rest[..i];
      FindIs(rest[..i + 1], LF, i);
    } else {
      assert rest[..i] == rest;
    }
  }

  lemma PartOf(whole: seq<Byte>, before: seq<Byte>, chunk: seq<Byte>, after: seq<Byte>)
    requires whole == before + (chunk + after)
    ensures NUL in chunk ==> NUL in whole
  {
    if NUL in chunk {
      var i :| 0 <= i < |chunk| && chunk[i] == NUL;
      assert whole[|before| + i] == NUL;
    }
  }

  /** However a stream is cut into pieces, the lines are those of the whole stream. */
  method Feed(chunks: seq<seq<Byte>>) returns (lines: seq<seq<Byte>>, rc: int)
    ensures NUL !in Concat(chunks) <==> rc == 0
    ensures rc == 0 ==> lines == Lines(Concat(chunks))
  {
    hide Lines, Partial, Joined, Find;
    var b := new LineBuffer();
    lines := [];
    LinesNone([]);
    assert chunks[0..] == chunks;
    for k := 0 to |chunks|
      invariant b.Valid() && fresh(b) && lines == Lines(b.stream)
      invariant b.stream + Concat(chunks[k..]) == Concat(chunks)
    {
      assert chunks[k..][1..] == chunks[k + 1..];
      PartOf(Concat(chunks), b.stream, chunks[k], Concat(chunks[k + 1..]));
      var more, e := FeedChunk(b, chunks[k]);
      if e != 0 {
        return lines, e;
      }
      lines := lines + more;
    }
    assert chunks[|chunks|..] == [] && b.stream + [] == b.stream;
    rc := 0;
  }
}
