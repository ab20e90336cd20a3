/** get_sprite_array (RPS.c:594-649): splitting an ASCII-art file into animation frames.

    The file is the character sequence `input`, and a read position in it stands for the
    FILE's cursor: fgetc takes the character at the cursor, or reports end of file when none
    is left. Frames are separated by a separator character, and the one character after a
    separator (the end of its line) is read and dropped. A frame holds at most
    max_sprite_size - 1 characters; when a frame fills up, reading simply goes on in the next
    frame. Once end of file is reached, every later frame only has its first cell cleared. */
module Sprites {

  /** How reading one frame ends: the number of characters stored, the cursor afterwards,
      and whether the read ran into end of file. */
  datatype Stop = Stop(len: nat, next: nat, eof: bool)

  /** The inner loop of get_sprite_array (RPS.c:619-645) from cursor `pos`, with `room`
      cells to fill. */
  function ReadFrame(s: seq<char>, pos: nat, sep: char, room: nat): (c: Stop)
    requires pos <= |s|
    ensures pos + c.len <= c.next <= |s| && c.len <= room
    decreases room
  {
    if room == 0 then Stop(0, pos, false)
    else if pos == |s| then Stop(0, pos, true)
    else if s[pos] == sep then Stop(0, if pos + 2 <= |s| then pos + 2 else |s|, false)
    else
      var c := ReadFrame(s, pos + 1, sep, room - 1);
      Stop(c.len + 1, c.next, c.eof)
  }

  /** The stopping rule, stated on its own: after storing s[pos..pos + len], none of them a
      separator, the loop ends at end of file, at a separator (consuming it and, if there is
      one, the character after it), or with the row full. */
  ghost predicate Stopped(s: seq<char>, pos: nat, len: nat, next: nat, eof: bool, sep: char, room: nat) {
    pos + len <= next <= |s| && len <= room &&
    (forall k :: pos <= k < pos + len ==> s[k] != sep) &&
    (eof ==> next == pos + len == |s| && len < room) &&
    (!eof && len < room ==> pos + len < |s| && s[pos + len] == sep &&
                            next == if pos + len + 2 <= |s| then pos + len + 2 else |s|) &&
    (len == room ==> !eof && next == pos + len)
  }

  /** ReadFrame follows the stopping rule. */
  lemma {:induction false} ReadFrameStops(s: seq<char>, pos: nat, sep: char, room: nat)
    requires pos <= |s|
    ensures var c := ReadFrame(s, pos, sep, room); Stopped(s, pos, c.len, c.next, c.eof, sep, room)
    decreases room
  {
    if room > 0 && pos < |s| && s[pos] != sep {
      ReadFrameStops(s, pos + 1, sep, room - 1);
    }
  }

  /** The stopping rule determines the frame: it describes ReadFrame and nothing else. */
  lemma {:induction false} StoppedIsReadFrame(s: seq<char>, pos: nat, len: nat, next: nat, eof: bool, sep: char, room: nat)
    requires Stopped(s, pos, len, next, eof, sep, room)
    ensures ReadFrame(s, pos, sep, room) == Stop(len, next, eof)
    decreases len
  {
    if len > 0 {
      StoppedIsReadFrame(s, pos + 1, len - 1, next, eof, sep, room - 1);
    }
  }

  /** A row of sprite_array after the outer loop handled it: skipped after end of file, or
      filled from the input. */
  datatype Frame = Skipped | Read(text: seq<char>)

  function Text(fr: Frame): seq<char> {
    match fr
    case Skipped => []
    case Read(t) => t
  }

  /** The outer loop (RPS.c:607-647): the n frames read from cursor `pos`, with `eof` for
      hit_eof. */
  function Frames(s: seq<char>, pos: nat, sep: char, room: nat, n: nat, eof: bool): (fs: seq<Frame>)
    requires pos <= |s|
    ensures |fs| == n
    decreases n
  {
    if n == 0 then []
    else if eof then [Skipped] + Frames(s, pos, sep, room, n - 1, true)
    else
      var c := ReadFrame(s, pos, sep, room);
      [Read(s[pos..pos + c.len])] + Frames(s, c.next, sep, room, n - 1, c.eof)
  }

  /** The first frame read from cursor pos, followed by the frames after it. */
  lemma FramesCons(s: seq<char>, pos: nat, sep: char, room: nat, n: nat)
    requires pos <= |s| && n > 0
    ensures var c := ReadFrame(s, pos, sep, room);
      Frames(s, pos, sep, room, n, false) == [Read(s[pos..pos + c.len])] + Frames(s, c.next, sep, room, n - 1, c.eof)
  {
  }

  /** Every frame fits in its row with a cell to spare, and holds no separator. */
  lemma {:induction false} FramesFit(s: seq<char>, pos: nat, sep: char, room: nat, n: nat, eof: bool)
    requires pos <= |s|
    ensures forall f :: 0 <= f < n ==>
      var t := Text(Frames(s, pos, sep, room, n, eof)[f]); |t| <= room && sep !in t
    decreases n
  {
    var fs := Frames(s, pos, sep, room, n, eof);
    if n > 0 && eof {
      FramesFit(s, pos, sep, room, n - 1, true);
      assert fs[1..] == Frames(s, pos, sep, room, n - 1, true);
    } else if n > 0 {
      var c := ReadFrame(s, pos, sep, room);
      ReadFrameStops(s, pos, sep, room);
      FramesFit(s, c.next, sep, room, n - 1, c.eof);
      assert fs[1..] == Frames(s, c.next, sep, room, n - 1, c.eof);
      var t := s[pos..pos + c.len];
      assert forall k :: 0 <= k < |t| ==> t[k] == s[pos + k];
    }
  }

  /** After end of file every frame is skipped. */
  lemma {:induction false} AllSkipped(s: seq<char>, pos: nat, sep: char, room: nat, n: nat)
    requires pos <= |s|
    ensures forall f :: 0 <= f < n ==> Frames(s, pos, sep, room, n, true)[f] == Skipped
    decreases n
  {
    if n > 0 {
      AllSkipped(s, pos, sep, room, n - 1);
      assert Frames(s, pos, sep, room, n, true)[1..] == Frames(s, pos, sep, room, n - 1, true);
    }
  }

  /** Skipped frames form a suffix: once one frame is skipped, so is every later one. */
  lemma {:induction false} SkippedSuffix(s: seq<char>, pos: nat, sep: char, room: nat, n: nat, eof: bool, f: nat, g: nat)
    requires pos <= |s| && f <= g < n
    requires Frames(s, pos, sep, room, n, eof)[f] == Skipped
    ensures Frames(s, pos, sep, room, n, eof)[g] == Skipped
    decreases n
  {
    var fs := Frames(s, pos, sep, room, n, eof);
    if eof {
      AllSkipped(s, pos, sep, room, n);
    } else if f > 0 {
      var c := ReadFrame(s, pos, sep, room);
      SkippedSuffix(s, c.next, sep, room, n - 1, c.eof, f - 1, g - 1);
      assert fs[1..] == Frames(s, c.next, sep, room, n - 1, c.eof);
    }
  }

  /** A frame that runs into end of file is followed by skipped frames only. */
  lemma EofSkipsRest(s: seq<char>, pos: nat, sep: char, room: nat, n: nat, g: nat)
    requires pos <= |s| && 0 < g < n && ReadFrame(s, pos, sep, room).eof
    ensures Frames(s, pos, sep, room, n, false)[g] == Skipped
  {
    var fs := Frames(s, pos, sep, room, n, false);
    AllSkipped(s, ReadFrame(s, pos, sep, room).next, sep, room, n - 1);
    assert fs[1..] == Frames(s, ReadFrame(s, pos, sep, room).next, sep, room, n - 1, true);
  }

  /** A file laid out as frames, each but the last followed by the separator and the end of
      its line. */
  function Join(ts: seq<seq<char>>, sep: char): seq<char> {
    if ts == [] then []
    else if |ts| == 1 then ts[0]
    else ts[0] + [sep, '\n'] + Join(ts[1..], sep)
  }

  function Reads(ts: seq<seq<char>>): (fs: seq<Frame>)
    ensures |fs| == |ts| && forall f :: 0 <= f < |ts| ==> fs[f] == Read(ts[f])
  {
    if ts == [] then [] else [Read(ts[0])] + Reads(ts[1..])
  }

  /** A joined file of two or more frames starts with the first frame, the separator and
      one more character, then the rest joined. */
  lemma JoinSplits(ts: seq<seq<char>>, sep: char)
    requires |ts| >= 2
    ensures var j := Join(ts, sep); var t := ts[0];
      |t| + 2 <= |j| && j[..|t|] == t && j[|t|] == sep && j[|t| + 2..] == Join(ts[1..], sep)
  {
    var j := Join(ts, sep);
    var t := ts[0];
    assert j == t + [sep, '\n'] + Join(ts[1..], sep);
    assert j[|t| + 2..] == Join(ts[1..], sep);
  }

  /** Reading a frame t that holds no separator and is followed by end of file or by a
      separator. */
  lemma FirstFrame(s: seq<char>, pos: nat, t: seq<char>, next: nat, eof: bool, sep: char, room: nat)
    requires pos + |t| <= |s| && s[pos..pos + |t|] == t && sep !in t && |t| < room
    requires eof ==> next == pos + |t| == |s|
    requires !eof ==> next == pos + |t| + 2 <= |s| && s[pos + |t|] == sep
    ensures ReadFrame(s, pos, sep, room) == Stop(|t|, next, eof)
  {
    forall k | pos <= k < pos + |t|
      ensures s[k] != sep
    {
      assert s[k] == t[k - pos];
    }
    StoppedIsReadFrame(s, pos, |t|, next, eof, sep, room);
  }

  /** Splitting what follows the cursor undoes joining, for frames that hold no separator
      and leave at least one cell of their row free. */
  lemma {:induction false} FramesJoinAt(s: seq<char>, pos: nat, ts: seq<seq<char>>, sep: char, room: nat)
    requires pos <= |s| && s[pos..] == Join(ts, sep)
    requires forall f :: 0 <= f < |ts| ==> sep !in ts[f] && |ts[f]| < room
    ensures Frames(s, pos, sep, room, |ts|, false) == Reads(ts)
    decreases |ts|
  {
    if ts != [] {
      var t := ts[0];
      assert Reads(ts) == [Read(t)] + Reads(ts[1..]);
      if |ts| == 1 {
        assert s[pos..] == t;
        assert s[pos..pos + |t|] == t;
        FirstFrame(s, pos, t, |s|, true, sep, room);
        FramesCons(s, pos, sep, room, 1);
      } else {
        JoinSplits(ts, sep);
        var next := pos + |t| + 2;
        assert s[pos..pos + |t|] == s[pos..][..|t|];
        assert s[pos + |t|] == s[pos..][|t|];
        assert s[next..] == s[pos..][|t| + 2..];
        FirstFrame(s, pos, t, next, false, sep, room);
        FramesJoinAt(s, next, ts[1..], sep, room);
        FramesCons(s, pos, sep, room, |ts|);
      }
    }
  }

  /** Splitting undoes joining: a file written as separated frames that hold no separator
      and fit in a row reads back as those frames. */
  lemma FramesJoin(ts: seq<seq<char>>, sep: char, room: nat)
    requires forall f :: 0 <= f < |ts| ==> sep !in ts[f] && |ts[f]| < room
    ensures Frames(Join(ts, sep), 0, sep, room, |ts|, false) == Reads(ts)
  {
    var s := Join(ts, sep);
    assert s[0..] == s;
    FramesJoinAt(s, 0, ts, sep, room);
  }

  /** What a cell of a row holds afterwards, given what it held before: the characters read,
      a '\0' right after them, a '\0' in the last cell (index `room`), and the old contents
      elsewhere. A skipped row only has its first cell cleared. */
  function Cell(fr: Frame, room: nat, before: char, c: nat): char {
    match fr
    case Skipped => if c == 0 then '\0' else before
    case Read(t) => if c < |t| then t[c] else if c == |t| || c == room then '\0' else before
  }

  /** The inner loop of get_sprite_array (RPS.c:619-645) on row f, from cursor pos: it
      stores the frame's `len` characters, puts a '\0' after them unless the row is full,
      and returns the new cursor and whether end of file was hit. */
  method ReadRow(input: seq<char>, pos: nat, sep: char, a: array2<char>, f: nat)
    returns (next: nat, eof: bool, ghost len: nat)
    requires pos <= |input| && 1 <= a.Length1 && f < a.Length0
    modifies a
    ensures Stopped(input, pos, len, next, eof, sep, a.Length1 - 1)
    ensures forall k :: 0 <= k < len ==> a[f, k] == input[pos + k]
    ensures len < a.Length1 - 1 ==> a[f, len] == '\0'
    ensures len == a.Length1 - 1 ==> a[f, len] == old(a[f, len])
    ensures forall k :: len < k < a.Length1 ==> a[f, k] == old(a[f, k])
    ensures forall g, k :: 0 <= g < a.Length0 && 0 <= k < a.Length1 && g != f ==> a[g, k] == old(a[g, k])
  {
    next := pos;
    for ch := 0 to a.Length1 - 1
      invariant next == pos + ch <= |input|
      invariant forall k :: pos <= k < next ==> input[k] != sep
      invariant forall k :: 0 <= k < ch ==> a[f, k] == input[pos + k]
      invariant forall k :: ch <= k < a.Length1 ==> a[f, k] == old(a[f, k])
      invariant forall g, k :: 0 <= g < a.Length0 && 0 <= k < a.Length1 && g != f ==> a[g, k] == old(a[g, k])
    {
      if next == |input| {
        a[f, ch] := '\0';
        return next, true, ch;
      }
      var character := input[next];
      if character == sep {
        a[f, ch] := '\0';
        next := next + 1;
        if next < |input| {
          next := next + 1;
        }
        return next, false, ch;
      }
      a[f, ch] := character;
      next := next + 1;
    }
    eof, len := false, a.Length1 - 1;
  }

  /** One pass of the outer loop of get_sprite_array (RPS.c:608-646) on row f: clear the
      first cell once end of file was hit, otherwise read a frame into the row and clear its
      last cell. Of the m frames still to come, the row gets the first. */
  method FillRow(input: seq<char>, pos: nat, hitEof: bool, sep: char, a: array2<char>, f: nat, ghost m: nat)
    returns (newPos: nat, newEof: bool)
    requires pos <= |input| && 1 <= a.Length1 && f < a.Length0 && m > 0
    modifies a
    ensures newPos <= |input|
    ensures var fs := Frames(input, pos, sep, a.Length1 - 1, m, hitEof);
      fs == [fs[0]] + Frames(input, newPos, sep, a.Length1 - 1, m - 1, newEof)
    ensures var fr := Frames(input, pos, sep, a.Length1 - 1, m, hitEof)[0];
      forall k :: 0 <= k < a.Length1 ==> a[f, k] == Cell(fr, a.Length1 - 1, old(a[f, k]), k)
    ensures forall g, k :: 0 <= g < a.Length0 && 0 <= k < a.Length1 && g != f ==> a[g, k] == old(a[g, k])
  {
    ghost var room := a.Length1 - 1;
    if hitEof {
      a[f, 0] := '\0';
      return pos, hitEof;
    }
    ghost var len;
    newPos, newEof, len := ReadRow(input, pos, sep, a, f);
    StoppedIsReadFrame(input, pos, len, newPos, newEof, sep, room);
    FramesCons(input, pos, sep, room, m);
    a[f, a.Length1 - 1] := '\0';
    ghost var t := input[pos..pos + len];
    forall k | 0 <= k < a.Length1
      ensures a[f, k] == Cell(Read(t), room, old(a[f, k]), k)
    {
      if k < len {
        assert t[k] == input[pos + k];
      }
    }
  }

  /** get_sprite_array on an open file (RPS.c:605-648): sprite_array is `a`, with
      num_frames rows of max_sprite_size cells. Every cell ends up as `Cell` says for the
      frame `Frames` assigns to its row; in particular every row holds its frame's text
      followed by a '\0'. */
  method GetSpriteArray(input: seq<char>, sep: char, a: array2<char>)
    requires 1 <= a.Length1
    modifies a
    ensures var fs := Frames(input, 0, sep, a.Length1 - 1, a.Length0, false);
      forall f, k :: 0 <= f < a.Length0 && 0 <= k < a.Length1 ==> a[f, k] == Cell(fs[f], a.Length1 - 1, old(a[f, k]), k)
    ensures var fs := Frames(input, 0, sep, a.Length1 - 1, a.Length0, false);
      forall f :: 0 <= f < a.Length0 ==> |Text(fs[f])| < a.Length1 && a[f, |Text(fs[f])|] == '\0'
    ensures var fs := Frames(input, 0, sep, a.Length1 - 1, a.Length0, false);
      forall f, k :: 0 <= f < a.Length0 && 0 <= k < |Text(fs[f])| ==> a[f, k] == Text(fs[f])[k]
  {
    ghost var room := a.Length1 - 1;
    ghost var fs := Frames(input, 0, sep, room, a.Length0, false);
    var pos: nat := 0;
    var hitEof := false;
    for f := 0 to a.Length0
      invariant pos <= |input|
      invariant fs[f..] == Frames(input, pos, sep, room, a.Length0 - f, hitEof)
      invariant forall g, k :: 0 <= g < f && 0 <= k < a.Length1 ==> a[g, k] == Cell(fs[g], room, old(a[g, k]), k)
      invariant forall g, k :: f <= g < a.Length0 && 0 <= k < a.Length1 ==> a[g, k] == old(a[g, k])
    {
      ghost var rest := fs[f..];
      label Before:
      pos, hitEof := FillRow(input, pos, hitEof, sep, a, f, a.Length0 - f);
      assert fs[f] == rest[0] && fs[f + 1..] == rest[1..];
      forall g, k | 0 <= g <= f && 0 <= k < a.Length1
        ensures a[g, k] == Cell(fs[g], room, old(a[g, k]), k)
      {
        if g < f {
          assert a[g, k] == old@Before(a[g, k]);
        } else {
          assert old@Before(a[f, k]) == old(a[f, k]);
        }
      }
    }
    FramesFit(input, 0, sep, room, a.Length0, false);
    forall f, k | 0 <= f < a.Length0 && 0 <= k < |Text(fs[f])|
      ensures a[f, k] == Text(fs[f])[k]
    {
      assert a[f, k] == Cell(fs[f], room, old(a[f, k]), k);
    }
  }
}
