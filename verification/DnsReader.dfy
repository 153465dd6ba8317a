/** The reader of domain names: a loop that copies and follows pointers, and a loop that turns the copy into text. */
module DnsReader {
  import opened DnsName

  // ---------- the first loop ----------

  /** What the first loop has copied, where it reads, whether it has followed a pointer, and what it has counted. */
  datatype Reader = Reader(read: seq<byte>, pos: nat, jumped: bool, count: nat)

  function Start(pos: nat): Reader {
    Reader([], pos, false, 1)
  }

  /** Where the two bytes of a pointer lead. */
  function Target(high: byte, low: byte): nat
    requires high >= JUMP
  {
    (high as int) * 256 + (low as int) - 49152
  }

  /** The two bytes that point to an offset. */
  function PointerTo(o: nat): seq<byte>
    requires o < 16384
  {
    [(192 + o / 256) as byte, (o % 256) as byte]
  }

  /** They lead there, and every two bytes of which the first is 192 or more point to where they lead. */
  lemma PointerLeads(o: nat)
    requires o < 16384
    ensures PointerTo(o)[0] >= JUMP && Target(PointerTo(o)[0], PointerTo(o)[1]) == o
  {
    assert o == 256 * (o / 256) + o % 256;
  }

  lemma PointerIs(high: byte, low: byte)
    requires high >= 192
    ensures high >= JUMP && Target(high, low) < 16384 && PointerTo(Target(high, low)) == [high, low]
  {
    var q, r := high as int - 192, low as int;
    assert Target(high, low) == 256 * q + r && r < 256;
    assert (256 * q + r) / 256 == q && (256 * q + r) % 256 == r;
  }

  ghost predicate AtEnd(buf: seq<byte>, r: Reader) {
    r.pos < |buf| && buf[r.pos] == 0
  }

  /** There is a byte to copy or a whole pointer to follow. */
  ghost predicate CanMove(buf: seq<byte>, r: Reader) {
    r.pos < |buf| && buf[r.pos] != 0 && (buf[r.pos] >= JUMP ==> r.pos + 1 < |buf|)
  }

  /** One round. */
  function Move(buf: seq<byte>, r: Reader): Reader
    requires CanMove(buf, r)
  {
    if buf[r.pos] >= JUMP then Reader(r.read, Target(buf[r.pos], buf[r.pos + 1]), true, r.count)
    else Reader(r.read + [buf[r.pos]], r.pos + 1, r.jumped, if r.jumped then r.count else r.count + 1)
  }

  /** After n rounds inside the message the loop is at a terminator. */
  ghost predicate Stops(buf: seq<byte>, r: Reader, n: nat)
    decreases n
  {
    if n == 0 then AtEnd(buf, r) else CanMove(buf, r) && Stops(buf, Move(buf, r), n - 1)
  }

  ghost function Final(buf: seq<byte>, r: Reader, n: nat): Reader
    requires Stops(buf, r, n)
    decreases n
  {
    if n == 0 then r else Final(buf, Move(buf, r), n - 1)
  }

  /** The count after the loop. */
  function Counted(r: Reader): nat {
    if r.jumped then r.count + 1 else r.count
  }

  lemma OneRound(buf: seq<byte>, r: Reader, n: nat)
    requires CanMove(buf, r) && Stops(buf, Move(buf, r), n)
    ensures Stops(buf, r, n + 1) && Final(buf, r, n + 1) == Final(buf, Move(buf, r), n)
  {
  }

  /** The number of rounds is determined by where the loop starts. */
  lemma {:induction false} StopsOnce(buf: seq<byte>, r: Reader, n: nat, m: nat)
    requires Stops(buf, r, n) && Stops(buf, r, m)
    ensures n == m
    decreases n
  {
    if n > 0 && m > 0 { StopsOnce(buf, Move(buf, r), n - 1, m - 1); }
  }

  /** What is copied only grows, and holds neither a terminator nor the first byte of a pointer. */
  lemma {:induction false} Copies(buf: seq<byte>, r: Reader, n: nat)
    requires Stops(buf, r, n) && Ordinary(r.read)
    ensures Ordinary(Final(buf, r, n).read) && |r.read| <= |Final(buf, r, n).read|
    decreases n
  {
    if n > 0 { Copies(buf, Move(buf, r), n - 1); }
  }

  /** The loop itself: copies length and label bytes alike, and follows pointers. */
  method ReadRaw(buf: seq<byte>, start: nat, name: array<byte>, ghost n: nat) returns (p: nat, count: nat)
    requires Stops(buf, Start(start), n) && |Final(buf, Start(start), n).read| < name.Length
    modifies name
    ensures p < name.Length && name[..p] == Final(buf, Start(start), n).read
    ensures count == Counted(Final(buf, Start(start), n))
  {
    var reader: int := start;
    var jumped := false;
    p, count := 0, 1;
    ghost var r, left := Start(start), n;
    while buf[reader] != 0
      invariant Stops(buf, r, left) && Final(buf, r, left) == Final(buf, Start(start), n)
      invariant r.pos == reader < |buf| && Ordinary(r.read)
      invariant p < name.Length && r.read == name[..p] && r.jumped == jumped && r.count == count
      decreases left
    {
      Copies(buf, Move(buf, r), left - 1);
      r, left := Move(buf, r), left - 1;
      if buf[reader] >= JUMP {
        reader := Target(buf[reader], buf[reader + 1]) - 1;
        jumped := true;
      } else {
        name[p] := buf[reader];
        p := p + 1;
      }
      reader := reader + 1;
      if !jumped {
        count := count + 1;
      }
    }
    if jumped {
      count := count + 1;
    }
  }

  // ---------- what a message spells ----------

  /** A label the reader takes as such: its length and all its bytes lie between 1 and 191. */
  ghost predicate Plain(part: Label) {
    1 <= |part| < JUMP as int && Ordinary(part)
  }

  /** Neither a terminator nor the first byte of a pointer occurs. */
  ghost predicate Ordinary(s: seq<byte>) {
    forall k :: 0 <= k < |s| ==> 0 < s[k] < JUMP
  }

  ghost predicate AllPlain(labels: seq<Label>) {
    forall k :: 0 <= k < |labels| ==> Plain(labels[k])
  }

  /**
   * From pos on the message spells the labels, in no more than so many hops: a zero byte ends the name, a pointer
   * continues it elsewhere, before or behind, and anything else is the length of a label.
   */
  ghost predicate Spells(buf: seq<byte>, hops: nat, pos: nat, labels: seq<Label>)
    decreases hops, |buf| - pos
  {
    && pos < |buf|
    && if buf[pos] == 0 then labels == []
       else if buf[pos] >= JUMP then
         pos + 1 < |buf| && hops > 0 && Spells(buf, hops - 1, Target(buf[pos], buf[pos + 1]), labels)
       else
         var next := pos + 1 + buf[pos] as int;
         && next < |buf| && labels != [] && buf[pos + 1..next] == labels[0]
         && Spells(buf, hops, next, labels[1..])
  }

  /** The bytes of the name in place: up to its terminator or to the end of its first pointer. */
  ghost function Extent(buf: seq<byte>, pos: nat): nat
    decreases |buf| - pos
  {
    if pos >= |buf| || buf[pos] == 0 then 1
    else if buf[pos] >= JUMP then 2
    else 1 + buf[pos] as int + Extent(buf, pos + 1 + buf[pos] as int)
  }

  /** What is ahead of the reader: hops, the bytes still to come of the current label, and the labels after that. */
  datatype Ahead = Ahead(hops: nat, pending: nat, rest: seq<Label>)

  /** The bytes of the current label that are still to come. */
  function Pending(buf: seq<byte>, r: Reader, a: Ahead): seq<byte>
    requires r.pos + a.pending <= |buf|
  {
    buf[r.pos..r.pos + a.pending]
  }

  /** What is copied, what is pending and what comes after make up the raw labels. */
  ghost predicate Copying(buf: seq<byte>, labels: seq<Label>, r: Reader, a: Ahead) {
    && r.pos + a.pending < |buf| && Ordinary(Pending(buf, r, a))
    && Spells(buf, a.hops, r.pos + a.pending, a.rest) && AllPlain(a.rest)
    && Raw(labels) == r.read + Pending(buf, r, a) + Raw(a.rest)
  }

  /** The count is right so far. */
  ghost predicate Counting(buf: seq<byte>, start: nat, r: Reader, a: Ahead) {
    if r.jumped then r.count + 1 == Extent(buf, start)
    else
      && r.count == 1 + r.pos - start
      && Extent(buf, start) == r.pos - start + a.pending + Extent(buf, r.pos + a.pending)
  }

  ghost predicate OnTheWay(buf: seq<byte>, start: nat, labels: seq<Label>, r: Reader, a: Ahead) {
    Copying(buf, labels, r, a) && Counting(buf, start, r, a)
  }

  /** What is ahead after copying a byte: of a label, or the length of the next one. */
  function Copied(buf: seq<byte>, r: Reader, a: Ahead): Ahead
    requires r.pos < |buf| && (a.pending > 0 || a.rest != [])
  {
    if a.pending > 0 then a.(pending := a.pending - 1) else a.(pending := buf[r.pos] as int, rest := a.rest[1..])
  }

  lemma CopyInside(buf: seq<byte>, labels: seq<Label>, r: Reader, a: Ahead)
    requires Copying(buf, labels, r, a) && a.pending > 0
    ensures CanMove(buf, r) && buf[r.pos] < JUMP && Copying(buf, labels, Move(buf, r), Copied(buf, r, a))
  {
    var b, s, t := buf[r.pos], Pending(buf, r, a), buf[r.pos + 1..r.pos + a.pending];
    assert s == [b] + t && s[0] == b;
    OrdinaryRest(b, t);
    assert r.read + s == r.read + [b] + t;
    assert t == Pending(buf, Move(buf, r), Copied(buf, r, a));
  }

  lemma OrdinaryRest(b: byte, t: seq<byte>)
    requires Ordinary([b] + t)
    ensures Ordinary(t)
  {
    forall k | 0 <= k < |t| ensures 0 < t[k] < JUMP { assert t[k] == ([b] + t)[k + 1]; }
  }

  lemma Regroup(a: seq<byte>, b: byte, f: seq<byte>, g: seq<byte>)
    ensures a + [] + ([b] + f + g) == a + [b] + f + g
  {
  }

  lemma CopyLength(buf: seq<byte>, labels: seq<Label>, r: Reader, a: Ahead)
    requires Copying(buf, labels, r, a) && a.pending == 0 && 0 < buf[r.pos] < JUMP
    ensures a.rest != [] && Copying(buf, labels, Move(buf, r), Copied(buf, r, a))
  {
    var b, first, others := buf[r.pos], a.rest[0], a.rest[1..];
    var next := r.pos + 1 + b as int;
    assert Plain(first) && first == buf[r.pos + 1..next] && Spells(buf, a.hops, next, others);
    RawFirst(a.rest);
    PlainLength(first);
    assert Pending(buf, r, a) == [] && Pending(buf, Move(buf, r), Copied(buf, r, a)) == first;
    Regroup(r.read, b, first, Raw(others));
  }

  lemma CountOne(buf: seq<byte>, start: nat, r: Reader, a: Ahead)
    requires Counting(buf, start, r, a) && CanMove(buf, r) && buf[r.pos] < JUMP && (a.pending > 0 || a.rest != [])
    ensures Counting(buf, start, Move(buf, r), Copied(buf, r, a))
  {
  }

  lemma PendingByte(buf: seq<byte>, start: nat, labels: seq<Label>, r: Reader, a: Ahead)
    requires OnTheWay(buf, start, labels, r, a) && a.pending > 0
    ensures 0 < buf[r.pos] < JUMP
  {
    assert Pending(buf, r, a)[0] == buf[r.pos];
  }

  /** A zero byte or a pointer cannot be part of a label. */
  lemma TurnIsOutside(buf: seq<byte>, start: nat, labels: seq<Label>, r: Reader, a: Ahead)
    requires OnTheWay(buf, start, labels, r, a) && (buf[r.pos] == 0 || buf[r.pos] >= JUMP)
    ensures a.pending == 0
  {
    if a.pending > 0 { PendingByte(buf, start, labels, r, a); }
  }

  lemma FollowPointer(buf: seq<byte>, start: nat, labels: seq<Label>, r: Reader, a: Ahead)
    requires OnTheWay(buf, start, labels, r, a) && buf[r.pos] >= JUMP
    ensures CanMove(buf, r) && a.hops > 0 && a.pending == 0
    ensures OnTheWay(buf, start, labels, Move(buf, r), a.(hops := a.hops - 1))
  {
    TurnIsOutside(buf, start, labels, r, a);
    assert Spells(buf, a.hops, r.pos, a.rest);
    var a', r' := a.(hops := a.hops - 1), Move(buf, r);
    assert Spells(buf, a'.hops, r'.pos, a.rest);
    assert Pending(buf, r, a) == [] && Pending(buf, r', a') == [];
  }

  /** At the terminator everything has been copied. */
  lemma Arrived(buf: seq<byte>, start: nat, labels: seq<Label>, r: Reader, a: Ahead)
    requires OnTheWay(buf, start, labels, r, a) && buf[r.pos] == 0
    ensures r.read == Raw(labels) && Extent(buf, start) == Counted(r)
  {
    TurnIsOutside(buf, start, labels, r, a);
    assert Pending(buf, r, a) == [];
    assert r.read + [] + [] == r.read;
  }

  lemma Step(buf: seq<byte>, start: nat, labels: seq<Label>, r: Reader, a: Ahead) returns (a': Ahead)
    requires OnTheWay(buf, start, labels, r, a) && buf[r.pos] != 0
    ensures CanMove(buf, r) && OnTheWay(buf, start, labels, Move(buf, r), a')
    ensures Move(buf, r).pos < |buf| && (a'.hops < a.hops || (a'.hops == a.hops && Move(buf, r).pos > r.pos))
  {
    if buf[r.pos] >= JUMP {
      FollowPointer(buf, start, labels, r, a);
      a' := a.(hops := a.hops - 1);
    } else {
      if a.pending > 0 { CopyInside(buf, labels, r, a); } else { CopyLength(buf, labels, r, a); }
      CountOne(buf, start, r, a);
      a' := Copied(buf, r, a);
    }
  }

  /** On the way means arriving, with everything copied and counted. */
  lemma {:induction false} Arrives(buf: seq<byte>, start: nat, labels: seq<Label>, r: Reader, a: Ahead) returns (n: nat)
    requires OnTheWay(buf, start, labels, r, a)
    ensures Stops(buf, r, n)
    ensures Final(buf, r, n).read == Raw(labels) && Counted(Final(buf, r, n)) == Extent(buf, start)
    decreases a.hops, |buf| - r.pos
  {
    if buf[r.pos] == 0 {
      Arrived(buf, start, labels, r, a);
      n := 0;
    } else {
      var a' := Step(buf, start, labels, r, a);
      var m := Arrives(buf, start, labels, Move(buf, r), a');
      OneRound(buf, r, m);
      n := m + 1;
    }
  }

  /** Of what a message spells, the first loop copies exactly the raw labels and counts the extent in place. */
  lemma SpelledIsRead(buf: seq<byte>, hops: nat, start: nat, labels: seq<Label>) returns (n: nat)
    requires Spells(buf, hops, start, labels) && AllPlain(labels)
    ensures Stops(buf, Start(start), n)
    ensures Final(buf, Start(start), n).read == Raw(labels) && Counted(Final(buf, Start(start), n)) == Extent(buf, start)
  {
    var r, a := Start(start), Ahead(hops, 0, labels);
    assert Pending(buf, r, a) == [] && [] + [] + Raw(labels) == Raw(labels);
    n := Arrives(buf, start, labels, r, a);
  }

  // ---------- the second loop: raw labels to dotted text, in place ----------

  function StrLen(s: seq<byte>): (n: nat)
    ensures n <= |s|
  {
    if s == [] || s[0] == 0 then 0 else 1 + StrLen(s[1..])
  }

  /** The characters of a zero-terminated string. */
  function CString(s: seq<byte>): seq<byte> {
    s[..StrLen(s)]
  }

  lemma {:induction false} StrLenProperty(s: seq<byte>)
    ensures 0 !in s[..StrLen(s)] && (StrLen(s) < |s| ==> s[StrLen(s)] == 0)
  {
    if s != [] && s[0] != 0 {
      StrLenProperty(s[1..]);
      assert s[..StrLen(s)] == [s[0]] + s[1..][..StrLen(s[1..])];
    }
  }

  lemma {:induction false} StrLenIs(s: seq<byte>, n: nat)
    requires n < |s| && s[n] == 0 && 0 !in s[..n]
    ensures StrLen(s) == n
    decreases n
  {
    if n > 0 {
      assert s[..n][0] == s[0];
      var t := s[1..][..n - 1];
      forall k | 0 <= k < |t| ensures t[k] != 0 {
        assert t[k] == s[..n][k + 1];
      }
      StrLenIs(s[1..], n - 1);
    }
  }

  /** The text that copied bytes become: each length byte makes way for a dot behind its label, except at the end. */
  function TextOf(read: seq<byte>): seq<byte> {
    if read == [] then [] else
      var p := read[0] as int;
      if p >= |read| then read[1..]
      else if p + 1 == |read| then read[1..]
      else read[1..p + 1] + [DOT] + TextOf(read[p + 1..])
  }

  /** No length byte leads beyond so many bytes of the buffer. */
  ghost predicate Inside(read: seq<byte>, room: int) {
    read == [] ||
    var p := read[0] as int;
    p < room && (p < |read| ==> Inside(read[p + 1..], room - p - 1))
  }

  /** The bytes from at + 1 to i have moved one position to the left. */
  function Shifted(s: seq<byte>, at: nat, i: nat): seq<byte>
    requires at <= i < |s|
  {
    s[..at] + s[at + 1..i + 1] + s[i..]
  }

  lemma ShiftedOnce(s: seq<byte>, at: nat, i: nat, b: byte)
    requires at <= i < |s|
    ensures i + 1 < |s| ==> Shifted(s, at, i)[i + 1] == s[i + 1] && Shifted(s, at, i)[i := s[i + 1]] == Shifted(s, at, i + 1)
    ensures Shifted(s, at, i)[i := b] == s[..at] + s[at + 1..i + 1] + [b] + s[i + 1..]
  {
    if i + 1 < |s| {
      assert s[at + 1..i + 2] == s[at + 1..i + 1] + [s[i + 1]];
    }
  }

  /** Moves the label whose length byte is at i one position to the left and puts a dot behind it. */
  method ShiftLabel(name: array<byte>, at: nat) returns (i: nat)
    requires at < name.Length && at + name[at] as int < name.Length
    modifies name
    ensures i == at + old(name[at]) as int
    ensures name[..] == old(name[..])[..at] + old(name[..])[at + 1..i + 1] + [DOT] + old(name[..])[i + 1..]
  {
    ghost var was := name[..];
    var p := name[at] as int;
    i := at;
    for j := 0 to p
      invariant i == at + j && name[..] == Shifted(was, at, i)
    {
      ShiftedOnce(was, at, i, DOT);
      assert name[i + 1] == name[..][i + 1];
      name[i] := name[i + 1];
      assert name[..] == Shifted(was, at, i)[i := was[i + 1]];
      i := i + 1;
    }
    ShiftedOnce(was, at, i, DOT);
    name[i] := DOT;
    assert name[..] == Shifted(was, at, i)[i := DOT];
  }

  /** What is done and what is still raw stand in the string, up to its terminator; together they become the text. */
  ghost predicate Converting(s: seq<byte>, text: seq<byte>, done: seq<byte>, rest: seq<byte>) {
    && done + rest != [] && |done| + |rest| < |s|
    && s[..|done| + |rest| + 1] == done + rest + [0]
    && Ordinary(done) && Ordinary(rest) && Inside(rest, |s| - |done|)
    && text == if rest == [] then done[..|done| - 1] else done + TextOf(rest)
  }

  /** The last length byte led beyond the terminator: the text is complete. */
  ghost predicate Overshot(s: seq<byte>, text: seq<byte>, i: nat) {
    StrLen(s) < i <= |s| && CString(s) == text
  }

  lemma ConvertLength(s: seq<byte>, text: seq<byte>, done: seq<byte>, rest: seq<byte>)
    requires Converting(s, text, done, rest)
    ensures StrLen(s) == |done| + |rest|
  {
    var n := |done| + |rest|;
    var t := s[..n + 1];
    assert s[n] == t[n] && s[..n] == t[..n] == done + rest;
    StrLenIs(s, n);
  }

  /** Inside the string: one more label is done. */
  lemma ConvertStep(s: seq<byte>, t: seq<byte>, text: seq<byte>, done: seq<byte>, rest: seq<byte>, p: nat)
    requires Converting(s, text, done, rest) && rest != [] && p == rest[0] as int < |rest| && |done| + p < |s|
    requires t == s[..|done|] + s[|done| + 1..|done| + p + 1] + [DOT] + s[|done| + p + 1..]
    ensures Converting(t, text, done + rest[1..p + 1] + [DOT], rest[p + 1..])
  {
    var f, g := rest[1..p + 1], rest[p + 1..];
    assert rest == [rest[0]] + f + g;
    LabelMoved(s, t, done, rest[0], f, g, |done| + p);
    OrdinaryLabel(done, rest, f, g, p);
    ConvertedText(text, done, rest, f, g, p);
  }

  lemma OrdinaryLabel(done: seq<byte>, rest: seq<byte>, f: seq<byte>, g: seq<byte>, p: nat)
    requires Ordinary(done) && Ordinary(rest) && p < |rest| && f == rest[1..p + 1] && g == rest[p + 1..]
    ensures Ordinary(done + f + [DOT]) && Ordinary(g)
  {
    assert Ordinary(f);
  }

  /** On the bytes up to the terminator: f moves over the byte before it and leaves a dot behind. */
  lemma LabelMoved(s: seq<byte>, t: seq<byte>, d: seq<byte>, b: byte, f: seq<byte>, g: seq<byte>, j: nat)
    requires j == |d| + |f| && j + 2 + |g| <= |s| && s[..j + 2 + |g|] == d + ([b] + f + g) + [0]
    requires t == s[..|d|] + s[|d| + 1..j + 1] + [DOT] + s[j + 1..]
    ensures |t| == |s| && t[..j + 2 + |g|] == d + f + [DOT] + g + [0]
  {
    var u, n := s[..j + 2 + |g|], j + 2 + |g|;
    assert s[..|d|] == u[..|d|] == d;
    assert s[|d| + 1..j + 1] == u[|d| + 1..j + 1] == f;
    assert s[j + 1..][..|g| + 1] == u[j + 1..] == g + [0];
    assert t == d + f + [DOT] + s[j + 1..];
  }

  lemma ConvertedText(text: seq<byte>, done: seq<byte>, rest: seq<byte>, f: seq<byte>, g: seq<byte>, p: nat)
    requires rest != [] && p == rest[0] as int < |rest| && f == rest[1..p + 1] && g == rest[p + 1..]
    requires text == done + TextOf(rest)
    ensures text == if g == [] then done + f else done + f + [DOT] + TextOf(g)
  {
  }

  /** Beyond the string: its terminator has moved one position to the left. */
  lemma ConvertOvershot(s: seq<byte>, t: seq<byte>, text: seq<byte>, done: seq<byte>, rest: seq<byte>, p: nat)
    requires Converting(s, text, done, rest) && rest != [] && |rest| <= p == rest[0] as int && |done| + p < |s|
    requires t == s[..|done|] + s[|done| + 1..|done| + p + 1] + [DOT] + s[|done| + p + 1..]
    ensures Overshot(t, text, |done| + p + 1)
  {
    var f := rest[1..];
    assert rest == [rest[0]] + f;
    TerminatorMoved(s, t, done, rest[0], f, |done| + p);
    var n := |done| + |f|;
    assert t[..n] == t[..n + 1][..n] == done + f && t[n] == t[..n + 1][n];
    StrLenIs(t, n);
  }

  lemma TerminatorMoved(s: seq<byte>, t: seq<byte>, d: seq<byte>, b: byte, f: seq<byte>, j: nat)
    requires |d| + |f| < j < |s| && s[..|d| + |f| + 2] == d + ([b] + f) + [0]
    requires t == s[..|d|] + s[|d| + 1..j + 1] + [DOT] + s[j + 1..]
    ensures |t| == |s| && t[..|d| + |f| + 1] == d + f + [0]
  {
    var u := s[..|d| + |f| + 2];
    assert s[..|d|] == u[..|d|] == d;
    assert s[|d| + 1..j + 1][..|f| + 1] == u[|d| + 1..] == f + [0];
  }

  /** Taking off the last dot leaves the text. */
  lemma ConvertEnds(s: seq<byte>, t: seq<byte>, text: seq<byte>, done: seq<byte>)
    requires Converting(s, text, done, []) && t == s[|done| - 1 := 0]
    ensures CString(t) == text
  {
    var u := s[..|done| + 1];
    assert t[..|done| - 1] == u[..|done| - 1] == text;
    StrLenIs(t, |done| - 1);
  }

  lemma OvershotEnds(s: seq<byte>, t: seq<byte>, text: seq<byte>, i: nat)
    requires Overshot(s, text, i) && t == s[i - 1 := 0]
    ensures CString(t) == text
  {
    var n := StrLen(s);
    StrLenProperty(s);
    assert t[..n] == s[..n];
    StrLenIs(t, n);
  }

  /** Between two rounds. */
  ghost predicate Between(s: seq<byte>, text: seq<byte>, i: nat, over: bool, done: seq<byte>, rest: seq<byte>) {
    if over then Overshot(s, text, i) else i == |done| && Converting(s, text, done, rest)
  }

  lemma RoundStarts(s: seq<byte>, text: seq<byte>, i: nat, over: bool, done: seq<byte>, rest: seq<byte>)
    requires Between(s, text, i, over, done, rest)
    ensures i < StrLen(s) ==> i < |s| && i + s[i] as int < |s|
    ensures i >= StrLen(s) ==> 0 < i <= |s| && CString(s[i - 1 := 0]) == text
  {
    if over {
      OvershotEnds(s, s[i - 1 := 0], text, i);
    } else {
      ConvertLength(s, text, done, rest);
      if rest == [] { ConvertEnds(s, s[i - 1 := 0], text, done); } else { NextByte(s, text, done, rest); }
    }
  }

  lemma RoundEnds(s: seq<byte>, t: seq<byte>, text: seq<byte>, i: nat, j: nat, over: bool, done: seq<byte>, rest: seq<byte>)
    returns (over': bool, done': seq<byte>, rest': seq<byte>)
    requires Between(s, text, i, over, done, rest) && i < StrLen(s) && j == i + s[i] as int < |s|
    requires t == s[..i] + s[i + 1..j + 1] + [DOT] + s[j + 1..]
    ensures Between(t, text, j + 1, over', done', rest') && j < |t| == |s|
  {
    ConvertLength(s, text, done, rest);
    NextByte(s, text, done, rest);
    var p := rest[0] as int;
    over', done', rest' := |rest| <= p, [], [];
    if over' {
      ConvertOvershot(s, t, text, done, rest, p);
    } else {
      done', rest' := done + rest[1..p + 1] + [DOT], rest[p + 1..];
      ConvertStep(s, t, text, done, rest, p);
    }
  }

  /** The loop: each round turns one length byte into the dot behind its label. */
  method LabelsToText(name: array<byte>, ghost read: seq<byte>)
    requires read != [] && Ordinary(read) && |read| < name.Length && Inside(read, name.Length)
    requires name[..][..|read|] == read && name[|read|] == 0
    modifies name
    ensures CString(name[..]) == TextOf(read)
  {
    var i: nat := 0;
    ghost var text, over, done, rest := TextOf(read), false, [], read;
    assert name[..][..|read| + 1] == [] + read + [0];
    RoundStarts(name[..], text, i, over, done, rest);
    while i < StrLen(name[..])
      invariant i <= name.Length && Between(name[..], text, i, over, done, rest)
      decreases name.Length - i
    {
      ghost var was, at := name[..], i;
      RoundStarts(was, text, i, over, done, rest);
      i := ShiftLabel(name, i);
      over, done, rest := RoundEnds(was, name[..], text, at, i, over, done, rest);
      i := i + 1;
    }
    ghost var was := name[..];
    RoundStarts(was, text, i, over, done, rest);
    name[i - 1] := 0;
    assert name[..] == was[i - 1 := 0];
  }

  lemma NextByte(s: seq<byte>, text: seq<byte>, done: seq<byte>, rest: seq<byte>)
    requires Converting(s, text, done, rest) && rest != []
    ensures s[|done|] == rest[0] && |done| + rest[0] as int < |s|
  {
    assert s[|done|] == s[..|done| + |rest| + 1][|done|];
  }

  // ---------- reading a name ----------

  /**
   * What the reader needs to stay within its memory: the first loop stops inside the message, what it copies is not
   * empty and fits the buffer of 256 bytes with a terminator, and no length byte leads beyond that buffer.
   */
  ghost predicate Readable(buf: seq<byte>, start: nat, n: nat) {
    && Stops(buf, Start(start), n)
    && var read := Final(buf, Start(start), n).read; read != [] && |read| < 256 && Inside(read, 256)
  }

  ghost function TextRead(buf: seq<byte>, start: nat, n: nat): seq<byte>
    requires Stops(buf, Start(start), n)
  {
    TextOf(Final(buf, Start(start), n).read)
  }

  /** Reads a name. If the message spells labels, through whatever pointers, it is their dotted text. */
  method ReadName(buf: seq<byte>, start: nat, ghost n: nat) returns (name: array<byte>, count: nat)
    requires Readable(buf, start, n)
    ensures fresh(name) && CString(name[..]) == TextRead(buf, start, n)
    ensures count == Counted(Final(buf, Start(start), n))
    ensures forall hops, labels :: Spells(buf, hops, start, labels) && AllPlain(labels) ==>
      labels != [] && CString(name[..]) == Dotted(labels) && count == Extent(buf, start)
  {
    name := new byte[256];
    name[0] := 0;
    var p;
    p, count := ReadRaw(buf, start, name, n);
    Copies(buf, Start(start), n);
    ghost var read := Final(buf, Start(start), n).read;
    name[p] := 0;
    assert name[..][..p] == read;
    LabelsToText(name, read);
    forall hops, labels | Spells(buf, hops, start, labels) && AllPlain(labels)
      ensures labels != [] && TextOf(read) == Dotted(labels) && count == Extent(buf, start)
    {
      SpelledText(buf, hops, start, labels, n);
    }
  }

  /** What is spelled is what is read. */
  lemma SpelledText(buf: seq<byte>, hops: nat, start: nat, labels: seq<Label>, n: nat)
    requires Readable(buf, start, n) && Spells(buf, hops, start, labels) && AllPlain(labels)
    ensures labels != [] && Final(buf, Start(start), n).read == Raw(labels)
    ensures TextRead(buf, start, n) == Dotted(labels) && Counted(Final(buf, Start(start), n)) == Extent(buf, start)
  {
    var m := SpelledIsRead(buf, hops, start, labels);
    StopsOnce(buf, Start(start), n, m);
    RawText(labels);
  }

  /** A name within the limit of section 2.3.4 that the message spells can be read. */
  lemma SpelledIsReadable(buf: seq<byte>, hops: nat, start: nat, labels: seq<Label>) returns (n: nat)
    requires labels != [] && AllPlain(labels) && |Raw(labels)| < 256 && Spells(buf, hops, start, labels)
    ensures Readable(buf, start, n)
  {
    n := SpelledIsRead(buf, hops, start, labels);
    RawInside(labels, 256);
    SameSize(labels);
  }

  lemma DottedFirst(labels: seq<Label>)
    requires labels != []
    ensures Dotted(labels) == if |labels| == 1 then labels[0] else labels[0] + [DOT] + Dotted(labels[1..])
  {
    var first, others := [labels[0]], labels[1..];
    assert labels == first + others;
    DotEndedConcat(first, others);
    assert DotEnded(first) == labels[0] + [DOT] by { assert first[..0] == []; }
    if others == [] { assert DotEnded(others) == []; } else { SameSize(others); }
  }

  /** Raw labels become the dotted text of the labels. */
  lemma {:induction false} RawText(labels: seq<Label>)
    requires AllPlain(labels) && labels != []
    ensures TextOf(Raw(labels)) == Dotted(labels)
    decreases |labels|
  {
    var first, others := labels[0], labels[1..];
    PlainLength(first);
    RawFirst(labels);
    DottedFirst(labels);
    SameSize(others);
    TextFirst(LengthByte(first), first, Raw(others));
    if others != [] { RawText(others); } else { assert Raw(others) == []; }
  }

  /** They lead nowhere beyond themselves. */
  lemma {:induction false} RawInside(labels: seq<Label>, room: int)
    requires AllPlain(labels) && |Raw(labels)| < room
    ensures Inside(Raw(labels), room)
    decreases |labels|
  {
    if labels != [] {
      var first, others := labels[0], labels[1..];
      PlainLength(first);
      RawFirst(labels);
      RawInside(others, room - |first| - 1);
      InsideFirst(LengthByte(first), first, Raw(others), room);
    }
  }

  lemma PlainLength(part: Label)
    requires Plain(part)
    ensures LengthByte(part) as int == |part|
  {
  }

  lemma TextFirst(b: byte, f: seq<byte>, g: seq<byte>)
    requires b as int == |f|
    ensures TextOf([b] + f + g) == if g == [] then f else f + [DOT] + TextOf(g)
  {
    var r := [b] + f + g;
    assert r[1..|f| + 1] == f && r[|f| + 1..] == g;
    if g == [] { assert r[1..] == f; }
  }

  lemma InsideFirst(b: byte, f: seq<byte>, g: seq<byte>, room: int)
    requires b as int == |f| < room && Inside(g, room - |f| - 1)
    ensures Inside([b] + f + g, room)
  {
    assert ([b] + f + g)[|f| + 1..] == g;
  }
}
