/** Names that are written and read again, and exactly which survive it. */
module DnsRoundTrip {
  import opened DnsName
  import opened DnsReader

  /** The bytes w stand in the message at pos. */
  ghost predicate Holds(buf: seq<byte>, pos: nat, w: seq<byte>) {
    pos + |w| <= |buf| && buf[pos..pos + |w|] == w
  }

  ghost predicate ProperLength(part: Label) {
    1 <= |part| < JUMP as int
  }

  ghost predicate AllProper(labels: seq<Label>) {
    forall k :: 0 <= k < |labels| ==> ProperLength(labels[k])
  }

  lemma HoldsSlice(buf: seq<byte>, pos: nat, w: seq<byte>, i: nat, j: nat)
    requires Holds(buf, pos, w) && i <= j <= |w|
    ensures Holds(buf, pos + i, w[i..j])
  {
    var u, v := buf[pos..pos + |w|], buf[pos + i..pos + i + |w[i..j]|];
    forall k | 0 <= k < j - i ensures v[k] == w[i..j][k] {
      assert v[k] == u[i + k];
    }
  }

  lemma HoldsParts(buf: seq<byte>, pos: nat, b: byte, f: seq<byte>, g: seq<byte>)
    requires Holds(buf, pos, [b] + f + g)
    ensures pos < |buf| && buf[pos] == b && Holds(buf, pos + 1, f) && Holds(buf, pos + 1 + |f|, g)
  {
    var w := [b] + f + g;
    assert w[0] == b && w[1..1 + |f|] == f && w[1 + |f|..|w|] == g;
    assert buf[pos] == buf[pos..pos + |w|][0];
    HoldsSlice(buf, pos, w, 1, 1 + |f|);
    HoldsSlice(buf, pos, w, 1 + |f|, |w|);
  }

  lemma LabelSpells(buf: seq<byte>, hops: nat, pos: nat, next: nat, labels: seq<Label>)
    requires labels != [] && ProperLength(labels[0]) && next == pos + 1 + |labels[0]|
    requires pos < |buf| && buf[pos] == LengthByte(labels[0]) && Holds(buf, pos + 1, labels[0])
    requires Spells(buf, hops, next, labels[1..])
    ensures Spells(buf, hops, pos, labels)
    ensures Extent(buf, pos) == next - pos + Extent(buf, next)
  {
    assert next < |buf|;
  }

  /** Raw labels followed by something that spells the rest spell the whole. */
  lemma {:induction false} PrefixSpells(buf: seq<byte>, hops: nat, pos: nat, end: nat, labels: seq<Label>,
                                        rest: seq<Label>)
    requires AllProper(labels) && Holds(buf, pos, Raw(labels)) && end == pos + |Raw(labels)| && Spells(buf, hops, end, rest)
    ensures Spells(buf, hops, pos, labels + rest)
    ensures Extent(buf, pos) == end - pos + Extent(buf, end)
    decreases |labels|
  {
    if labels == [] {
      assert labels + rest == rest;
    } else {
      var next := pos + 1 + |labels[0]|;
      FirstHolds(buf, pos, next, end, labels);
      PrefixSpells(buf, hops, next, end, labels[1..], rest);
      assert (labels + rest)[1..] == labels[1..] + rest;
      LabelSpells(buf, hops, pos, next, labels + rest);
    }
  }

  lemma FirstHolds(buf: seq<byte>, pos: nat, next: nat, end: nat, labels: seq<Label>)
    requires labels != [] && AllProper(labels) && Holds(buf, pos, Raw(labels))
    requires next == pos + 1 + |labels[0]| && end == pos + |Raw(labels)|
    ensures pos < |buf| && buf[pos] == LengthByte(labels[0]) && Holds(buf, pos + 1, labels[0])
    ensures AllProper(labels[1..]) && Holds(buf, next, Raw(labels[1..])) && end == next + |Raw(labels[1..])|
    ensures ProperLength(labels[0])
  {
    RawFirst(labels);
    HoldsParts(buf, pos, LengthByte(labels[0]), labels[0], Raw(labels[1..]));
  }

  /** A name in wire format spells its labels, and its extent is its encoded length. */
  lemma WireSpells(buf: seq<byte>, hops: nat, pos: nat, labels: seq<Label>)
    requires AllProper(labels) && Holds(buf, pos, Wire(labels))
    ensures Spells(buf, hops, pos, labels) && Extent(buf, pos) == |Wire(labels)|
  {
    var w, n := Wire(labels), |Raw(labels)|;
    assert w[0..n] == Raw(labels) && w[n] == 0;
    HoldsSlice(buf, pos, w, 0, n);
    assert buf[pos + n] == buf[pos..pos + |w|][n];
    PrefixSpells(buf, hops, pos, pos + |Raw(labels)|, labels, []);
    assert labels + [] == labels;
  }

  /** Labels that end in a pointer to a name spell the concatenation, in two bytes more than the labels take. */
  lemma CompressedSpells(buf: seq<byte>, hops: nat, pos: nat, labels: seq<Label>, high: byte, low: byte,
                         rest: seq<Label>)
    requires AllProper(labels) && Holds(buf, pos, Raw(labels) + [high, low]) && high >= JUMP
    requires Spells(buf, hops, Target(high, low), rest)
    ensures Spells(buf, hops + 1, pos, labels + rest) && Extent(buf, pos) == |Raw(labels)| + 2
  {
    var w, n := Raw(labels) + [high, low], |Raw(labels)|;
    assert w[0..n] == Raw(labels) && w[n] == high && w[n + 1] == low;
    HoldsSlice(buf, pos, w, 0, n);
    assert buf[pos + n] == buf[pos..pos + |w|][n] && buf[pos + n + 1] == buf[pos..pos + |w|][n + 1];
    PrefixSpells(buf, hops + 1, pos, pos + n, labels, rest);
  }

  /** The same, told by the offset the pointer is written for. */
  lemma PointedSpells(buf: seq<byte>, hops: nat, pos: nat, labels: seq<Label>, o: nat, rest: seq<Label>)
    requires o < 16384 && AllProper(labels) && Holds(buf, pos, Raw(labels) + PointerTo(o)) && Spells(buf, hops, o, rest)
    ensures Spells(buf, hops + 1, pos, labels + rest) && Extent(buf, pos) == |Raw(labels)| + 2
  {
    PointerLeads(o);
    CompressedSpells(buf, hops, pos, labels, PointerTo(o)[0], PointerTo(o)[1], rest);
  }

  /** Reads a name whose first labels stand in place and whose others stand at the offset they are pointed to at. */
  method ReadCompressed(buf: seq<byte>, start: nat, ghost labels: seq<Label>, ghost o: nat, ghost hops: nat,
                        ghost rest: seq<Label>)
    returns (name: array<byte>, count: nat)
    requires labels + rest != [] && AllPlain(labels) && AllPlain(rest) && |Raw(labels)| + |Raw(rest)| < 256
    requires o < 16384 && Holds(buf, start, Raw(labels) + PointerTo(o)) && Spells(buf, hops, o, rest)
    ensures fresh(name) && CString(name[..]) == Dotted(labels + rest) && count == |Raw(labels)| + 2
  {
    PlainIsProper(labels);
    PointedSpells(buf, hops, start, labels, o, rest);
    RawConcat(labels, rest);
    ghost var n := SpelledIsReadable(buf, hops + 1, start, labels + rest);
    name, count := ReadName(buf, start, n);
  }

  lemma PlainIsProper(labels: seq<Label>)
    requires AllPlain(labels)
    ensures AllProper(labels)
  {
    forall k | 0 <= k < |labels| ensures ProperLength(labels[k]) { assert Plain(labels[k]); }
  }

  // ---------- which names survive ----------

  /** Whatever is spelled has labels of 1 to 191 bytes. */
  lemma {:induction false} SpelledIsProper(buf: seq<byte>, hops: nat, pos: nat, labels: seq<Label>)
    requires Spells(buf, hops, pos, labels)
    ensures AllProper(labels)
    decreases hops, |buf| - pos
  {
    if buf[pos] >= JUMP {
      SpelledIsProper(buf, hops - 1, Target(buf[pos], buf[pos + 1]), labels);
    } else if buf[pos] != 0 {
      var next := pos + 1 + buf[pos] as int;
      SpelledIsProper(buf, hops, next, labels[1..]);
      assert ProperLength(labels[0]) by { assert |labels[0]| == buf[pos] as int; }
      forall k | 0 <= k < |labels| ensures ProperLength(labels[k]) {
        if k > 0 { assert labels[k] == labels[1..][k - 1]; }
      }
    }
  }

  ghost predicate Spelled(buf: seq<byte>, pos: nat, labels: seq<Label>) {
    exists hops: nat :: Spells(buf, hops, pos, labels)
  }

  /** As labels of the message format, what the encoder writes comes back exactly if each has 1 to 191 bytes. */
  lemma GrammarFaithful(labels: seq<Label>)
    ensures Spelled(Wire(labels), 0, labels) <==> AllProper(labels)
  {
    var w, hops: nat := Wire(labels), 0;
    if AllProper(labels) {
      assert w[0..|w|] == w;
      WireSpells(w, hops, 0, labels);
    }
    if Spelled(w, 0, labels) {
      var some: nat :| Spells(w, some, 0, labels);
      SpelledIsProper(w, some, 0, labels);
    }
  }

  /** Labels of a text: they hold neither dots nor terminators. */
  ghost predicate Nameable(labels: seq<Label>) {
    labels != [] && forall k :: 0 <= k < |labels| ==> DOT !in labels[k] && 0 !in labels[k]
  }

  /** Text that was read holds no byte that would start a pointer. */
  lemma {:induction false} TextOrdinary(read: seq<byte>)
    requires Ordinary(read)
    ensures Ordinary(TextOf(read))
    decreases |read|
  {
    if read != [] && read[0] as int + 1 < |read| {
      TextOrdinary(read[read[0] as int + 1..]);
    }
  }

  /** And no stretch of 192 bytes without a dot. */
  lemma {:induction false} DotWithin(read: seq<byte>, q: nat) returns (k: nat)
    requires Ordinary(read) && q + JUMP as int <= |TextOf(read)|
    ensures q <= k < q + JUMP as int && TextOf(read)[k] == DOT
    decreases |read|
  {
    var p := read[0] as int;
    if q <= p {
      k := p;
    } else {
      k := DotWithin(read[p + 1..], q - p - 1);
      k := k + p + 1;
    }
  }

  lemma LongHasDot(read: seq<byte>, from: nat, l: Label)
    requires Ordinary(read) && |l| >= JUMP as int
    requires from + |l| <= |TextOf(read)| && TextOf(read)[from..from + |l|] == l
    ensures DOT in l
  {
    var d := DotWithin(read, from);
    assert l[d - from] == DOT;
  }

  /** Where a label stands in the dotted text. */
  lemma LabelInText(labels: seq<Label>, k: nat) returns (from: nat)
    requires k < |labels|
    ensures from + |labels[k]| <= |Dotted(labels)| && Dotted(labels)[from..from + |labels[k]|] == labels[k]
  {
    var a, l, b := labels[..k], labels[k], labels[k + 1..];
    from := |DotEnded(a)|;
    assert labels == a + [l] + b;
    DotEndedConcat(a + [l], b);
    DotEndedSnoc(a, l);
    InsideText(DotEnded(a), l, DotEnded(b), DotEnded(labels));
  }

  lemma InsideText(p: seq<byte>, l: seq<byte>, q: seq<byte>, e: seq<byte>)
    requires e == p + l + [DOT] + q
    ensures |p| + |l| <= |e| - 1 && e[..|e| - 1][|p|..|p| + |l|] == l
  {
    var t := e[..|e| - 1];
    forall k | 0 <= k < |l| ensures t[|p|..|p| + |l|][k] == l[k] { assert t[|p| + k] == e[|p| + k]; }
  }

  lemma OrdinarySlice(s: seq<byte>, i: nat, j: nat)
    requires Ordinary(s) && i <= j <= |s|
    ensures Ordinary(s[i..j])
  {
  }

  /** A label of a text that was read is short and holds no byte that would start a pointer. */
  lemma ReadLabel(read: seq<byte>, labels: seq<Label>, k: nat)
    requires Ordinary(read) && Nameable(labels) && TextOf(read) == Dotted(labels) && k < |labels|
    ensures |labels[k]| < JUMP as int && Ordinary(labels[k])
  {
    var l, t := labels[k], Dotted(labels);
    var from := LabelInText(labels, k);
    TextOrdinary(read);
    OrdinarySlice(t, from, from + |l|);
    if |l| >= JUMP as int { LongHasDot(read, from, l); }
  }

  /** An empty label ends the name: only what precedes it is read. */
  lemma EmptyEnds(buf: seq<byte>, at: nat, labels: seq<Label>, n: nat, k: nat)
    requires Holds(buf, at, Wire(labels)) && Readable(buf, at, n)
    requires k < |labels| && labels[k] == [] && AllPlain(labels[..k])
    ensures k > 0 && TextRead(buf, at, n) == Dotted(labels[..k])
  {
    var a, b := labels[..k], labels[k..];
    assert labels == a + b;
    RawConcat(a, b);
    RawFirst(b);
    var w, i := Wire(labels), |Raw(a)| + 1;
    assert w[0..i] == Wire(a);
    HoldsSlice(buf, at, w, 0, i);
    PlainIsProper(a);
    WireSpells(buf, 0, at, a);
    SpelledText(buf, 0, at, a, n);
  }

  /** What precedes an empty label is shorter than the whole. */
  lemma PrefixShorter(labels: seq<Label>, k: nat)
    requires 0 < k < |labels|
    ensures |Dotted(labels[..k])| < |Dotted(labels)|
  {
    assert labels == labels[..k] + labels[k..];
    DotEndedConcat(labels[..k], labels[k..]);
    SameSize(labels[..k]);
    SameSize(labels[k..]);
  }

  /**
   * Of the labels of a text, written and read by bytes, the text comes back exactly if each label has 1 to 191 bytes and
   * none of these bytes is 192 or more. The reading must not leave its memory; where it goes does not matter.
   */
  lemma EncodingFaithful(buf: seq<byte>, at: nat, labels: seq<Label>, n: nat)
    requires Nameable(labels) && Holds(buf, at, Wire(labels)) && Readable(buf, at, n)
    ensures TextRead(buf, at, n) == Dotted(labels) <==> AllPlain(labels)
    ensures AllPlain(labels) ==> Counted(Final(buf, Start(at), n)) == |Wire(labels)|
  {
    if AllPlain(labels) {
      PlainIsProper(labels);
      WireSpells(buf, 0, at, labels);
      SpelledText(buf, 0, at, labels, n);
    } else if TextRead(buf, at, n) == Dotted(labels) {
      NotPlainNotRead(buf, at, labels, n);
    }
  }

  /** The least label that is not plain. */
  lemma FirstNotPlain(labels: seq<Label>) returns (k: nat)
    requires !AllPlain(labels)
    ensures k < |labels| && !Plain(labels[k]) && AllPlain(labels[..k])
  {
    var front := labels[..|labels| - 1];
    if AllPlain(front) {
      k := |labels| - 1;
    } else {
      k := FirstNotPlain(front);
      assert front[..k] == labels[..k];
    }
  }

  lemma NotPlainNotRead(buf: seq<byte>, at: nat, labels: seq<Label>, n: nat)
    requires Nameable(labels) && Holds(buf, at, Wire(labels)) && Readable(buf, at, n) && !AllPlain(labels)
    ensures TextRead(buf, at, n) != Dotted(labels)
  {
    var k := FirstNotPlain(labels);
    Copies(buf, Start(at), n);
    var read := Final(buf, Start(at), n).read;
    if labels[k] == [] {
      EmptyEnds(buf, at, labels, n, k);
      PrefixShorter(labels, k);
    } else if TextOf(read) == Dotted(labels) {
      ReadLabel(read, labels, k);
    }
  }

  // ---------- hosts ----------

  /** The message with a host written into it. */
  function Message(before: seq<byte>, at: nat, host: seq<byte>): seq<byte>
    requires at + |host| + 2 <= |before|
  {
    before[..at] + Wire(HostLabels(host)) + before[at + |host| + 2..]
  }

  lemma HostNameable(host: seq<byte>)
    requires 0 !in host
    ensures Nameable(HostLabels(host)) && Dotted(HostLabels(host)) == host
  {
    var text, labels := host + [DOT], HostLabels(host);
    HostSpelled(host);
    FieldsSpell(text);
    forall k | 0 <= k < |labels| ensures 0 !in labels[k] {
      var from := LabelInText(labels, k);
      assert forall i :: 0 <= i < |labels[k]| ==> labels[k][i] == host[from..from + |labels[k]|][i] == host[from + i];
    }
  }

  lemma MessageHolds(before: seq<byte>, at: nat, host: seq<byte>)
    requires at + |host| + 2 <= |before|
    ensures Holds(Message(before, at, host), at, Wire(HostLabels(host)))
  {
    HostSpelled(host);
  }

  /** A host of plain labels within the limit of section 2.3.4 can be read where it was written. */
  lemma HostReadable(before: seq<byte>, at: nat, host: seq<byte>) returns (n: nat)
    requires at + |host| + 2 <= |before| && AllPlain(HostLabels(host)) && |host| <= 254
    ensures Readable(Message(before, at, host), at, n)
  {
    HostSpelled(host);
    MessageHolds(before, at, host);
    PlainIsProper(HostLabels(host));
    WireSpells(Message(before, at, host), 0, at, HostLabels(host));
    n := SpelledIsReadable(Message(before, at, host), 0, at, HostLabels(host));
  }

  /**
   * Writing a host into a message and reading it back, provided that the reader stays within its memory: the host comes
   * back exactly if its labels are plain, and then the bytes written are counted.
   */
  method WriteAndRead(dns: array<byte>, at: nat, host: seq<byte>, ghost n: nat) returns (name: array<byte>, count: nat)
    requires 0 !in host && at + |host| + 2 <= dns.Length && Readable(Message(dns[..], at, host), at, n)
    modifies dns
    ensures dns[..] == Message(old(dns[..]), at, host)
    ensures fresh(name) && (CString(name[..]) == host <==> AllPlain(HostLabels(host)))
    ensures AllPlain(HostLabels(host)) ==> count == |host| + 2
  {
    HostSpelled(host);
    HostNameable(host);
    MessageHolds(dns[..], at, host);
    EncodingFaithful(Message(dns[..], at, host), at, HostLabels(host), n);
    var dotted := ChangeToDnsNameFormat(dns, at, host);
    name, count := ReadName(dns[..], at, n);
  }

  lemma TwoRounds(w: seq<byte>, r1: Reader, r2: Reader)
    requires CanMove(w, Start(0)) && r1 == Move(w, Start(0)) && CanMove(w, r1) && r2 == Move(w, r1) && AtEnd(w, r2)
    ensures Stops(w, Start(0), 2) && Final(w, Start(0), 2) == r2
  {
    assert Stops(w, r2, 0) && Stops(w, r1, 1);
    assert Final(w, r1, 1) == Final(w, r2, 0);
  }

  /** The host a..b is written with its empty label, and read as a. */
  lemma EmptyLabelLost()
    ensures HostLabels([97, 46, 46, 98]) == [[97], [], [98]] && !AllPlain([[97], [], [98]])
    ensures Wire([[97], [], [98]]) == [1, 97, 0, 1, 98, 0]
    ensures Readable([1, 97, 0, 1, 98, 0], 0, 2) && TextRead([1, 97, 0, 1, 98, 0], 0, 2) == [97]
  {
    EmptyLabelWritten([[97]], [[97], []], [[97], [], [98]]);
    assert !Plain([[97], [], [98]][1]);
    TwoRounds([1, 97, 0, 1, 98, 0], Reader([1], 1, false, 2), Reader([1, 97], 2, false, 3));
    assert [1 as byte, 97][2..] == [];
  }

  lemma EmptyLabelWritten(a: seq<Label>, b: seq<Label>, c: seq<Label>)
    requires a == [[97]] && b == [[97], []] && c == [[97], [], [98]]
    ensures HostLabels([97, 46, 46, 98]) == c && Wire(c) == [1, 97, 0, 1, 98, 0]
  {
    assert DotEnded([]) == [] && Raw([]) == [] && a == [] + [[97]] && b == a + [[]] && c == b + [[98]];
    DotEndedSnoc([], [97]);
    DotEndedSnoc(a, []);
    DotEndedSnoc(b, [98]);
    RawSnoc([], [97]);
    RawSnoc(a, []);
    RawSnoc(b, [98]);
    assert [97, DOT, DOT, 98] + [DOT] == DotEnded(c);
    FieldsInverse(c);
  }

  /** Two bytes, the first of which is 192, are written as they are, and read as a pointer to the terminator. */
  lemma HighByteLost()
    ensures HostLabels([192, 3]) == [[192, 3]] && !AllPlain([[192, 3]])
    ensures Wire([[192, 3]]) == [2, 192, 3, 0]
    ensures Readable([2, 192, 3, 0], 0, 2) && TextRead([2, 192, 3, 0], 0, 2) == []
  {
    HighByteWritten([192, 3]);
    assert !Plain([192, 3]) by { assert [192 as byte, 3][0] == 192; }
    assert !Plain([[192, 3]][0]);
    TwoRounds([2, 192, 3, 0], Reader([2], 1, false, 2), Reader([2], 3, true, 2));
  }

  lemma HighByteWritten(part: Label)
    requires part == [192, 3]
    ensures HostLabels(part) == [part] && Wire([part]) == [2, 192, 3, 0]
  {
    assert DotEnded([]) == [] && Raw([]) == [] && [] + [part] == [part];
    DotEndedSnoc([], part);
    RawSnoc([], part);
    assert DotEnded([part]) == part + [DOT];
    FieldsInverse([part]);
  }
}
