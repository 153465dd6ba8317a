/** Domain names: dotted text, the wire format of RFC 1035 section 3.1, and compression pointers of section 4.1.4. */
module DnsName {

  newtype byte = x: int | 0 <= x < 256

  const DOT: byte := 46

  /** The least byte that starts a compression pointer, which the reader follows. */
  const JUMP: byte := 192

  type Label = seq<byte>

  // ---------- the formats ----------

  /** Every label followed by a dot. */
  function DotEnded(labels: seq<Label>): seq<byte> {
    if labels == [] then [] else DotEnded(labels[..|labels| - 1]) + labels[|labels| - 1] + [DOT]
  }

  /** The text of a name: its labels with dots between them. */
  function Dotted(labels: seq<Label>): seq<byte>
    requires labels != []
  {
    DotEnded(labels)[..|DotEnded(labels)| - 1]
  }

  /** The length byte of a label as the program writes it, truncated to a byte. */
  function LengthByte(part: Label): byte {
    (|part| % 256) as byte
  }

  /** Every label preceded by its length. */
  function Raw(labels: seq<Label>): seq<byte> {
    if labels == [] then [] else Raw(labels[..|labels| - 1]) + [LengthByte(labels[|labels| - 1])] + labels[|labels| - 1]
  }

  /** The wire format: the labels and a zero byte. */
  function Wire(labels: seq<Label>): seq<byte> {
    Raw(labels) + [0]
  }

  lemma {:induction false} RawConcat(a: seq<Label>, b: seq<Label>)
    ensures Raw(a + b) == Raw(a) + Raw(b)
    decreases |b|
  {
    if b == [] {
      assert a + b == a;
    } else {
      var c := b[..|b| - 1];
      assert (a + b)[..|a + b| - 1] == a + c;
      RawConcat(a, c);
    }
  }

  lemma RawFirst(labels: seq<Label>)
    requires labels != []
    ensures Raw(labels) == [LengthByte(labels[0])] + labels[0] + Raw(labels[1..])
  {
    assert labels == [labels[0]] + labels[1..];
    RawConcat([labels[0]], labels[1..]);
    assert Raw([labels[0]]) == [LengthByte(labels[0])] + labels[0] by { assert [labels[0]][..0] == []; }
  }

  /** Every label stands behind a byte that holds its length modulo 256, and directly behind the label before it. */
  lemma RawPlaces(labels: seq<Label>, k: nat)
    requires k < |labels|
    ensures var at, raw := |Raw(labels[..k])|, Raw(labels);
      && at + 1 + |labels[k]| == |Raw(labels[..k + 1])| <= |raw|
      && raw[at] as int == |labels[k]| % 256 && raw[at + 1..at + 1 + |labels[k]|] == labels[k]
  {
    assert labels == labels[..k] + labels[k..] && labels == labels[..k + 1] + labels[k + 1..];
    RawConcat(labels[..k], labels[k..]);
    RawConcat(labels[..k + 1], labels[k + 1..]);
    assert labels[..k + 1][..k] == labels[..k];
  }

  lemma {:induction false} DotEndedConcat(a: seq<Label>, b: seq<Label>)
    ensures DotEnded(a + b) == DotEnded(a) + DotEnded(b)
    decreases |b|
  {
    if b == [] {
      assert a + b == a;
    } else {
      var c := b[..|b| - 1];
      assert (a + b)[..|a + b| - 1] == a + c;
      DotEndedConcat(a, c);
    }
  }

  lemma {:induction false} SameSize(labels: seq<Label>)
    ensures |DotEnded(labels)| == |Raw(labels)| >= |labels|
  {
    if labels != [] { SameSize(labels[..|labels| - 1]); }
  }

  // ---------- text to wire ----------

  /** What follows the last dot. */
  function Tail(text: seq<byte>): Label {
    if text == [] || text[|text| - 1] == DOT then [] else Tail(text[..|text| - 1]) + [text[|text| - 1]]
  }

  /** The parts of the text that are ended by a dot. */
  function Fields(text: seq<byte>): seq<Label> {
    if text == [] then []
    else if text[|text| - 1] == DOT then Fields(text[..|text| - 1]) + [Tail(text[..|text| - 1])]
    else Fields(text[..|text| - 1])
  }

  lemma {:induction false} TailIsSuffix(text: seq<byte>)
    ensures |Tail(text)| <= |text| && text[|text| - |Tail(text)|..] == Tail(text) && DOT !in Tail(text)
  {
    if text != [] && text[|text| - 1] != DOT { TailIsSuffix(text[..|text| - 1]); }
  }

  /** The fields and the tail make up the text, so splitting loses nothing. */
  lemma {:induction false} FieldsSpell(text: seq<byte>)
    ensures text == DotEnded(Fields(text)) + Tail(text)
    ensures forall k :: 0 <= k < |Fields(text)| ==> DOT !in Fields(text)[k]
  {
    if text != [] {
      var t := text[..|text| - 1];
      FieldsSpell(t);
      TailIsSuffix(t);
      assert text == t + [text[|text| - 1]];
      if text[|text| - 1] == DOT {
        assert Fields(text)[..|Fields(text)| - 1] == Fields(t);
      }
    }
  }

  lemma FieldsSnoc(text: seq<byte>, b: byte)
    ensures b != DOT ==> Fields(text + [b]) == Fields(text) && Tail(text + [b]) == Tail(text) + [b]
  {
    assert (text + [b])[..|text|] == text;
  }

  lemma {:induction false} FieldsOfLabel(labels: seq<Label>, part: Label)
    requires DOT !in part && Fields(DotEnded(labels)) == labels
    ensures Fields(DotEnded(labels) + part) == labels && Tail(DotEnded(labels) + part) == part
    decreases |part|
  {
    var text := DotEnded(labels);
    if part == [] {
      assert text + part == text;
    } else {
      var l := part[..|part| - 1];
      FieldsOfLabel(labels, l);
      FieldsSnoc(text + l, part[|part| - 1]);
      assert part == l + [part[|part| - 1]];
      assert text + part == text + l + [part[|part| - 1]];
    }
  }

  /** Labels without dots come back from their text. */
  lemma {:induction false} FieldsInverse(labels: seq<Label>)
    requires forall k :: 0 <= k < |labels| ==> DOT !in labels[k]
    ensures Fields(DotEnded(labels)) == labels
  {
    if labels != [] {
      var front, last := labels[..|labels| - 1], labels[|labels| - 1];
      FieldsInverse(front);
      FieldsOfLabel(front, last);
      FieldsDot(DotEnded(front) + last);
      assert labels == front + [last];
    }
  }

  lemma FieldsDot(text: seq<byte>)
    ensures Fields(text + [DOT]) == Fields(text) + [Tail(text)]
  {
    assert (text + [DOT])[..|text|] == text;
  }

  /** Copies src[lock..i], preceded by its length, and returns where the copy ends. */
  method WriteLabel(dns: array<byte>, at: nat, src: seq<byte>, lock: nat, i: nat) returns (pos: nat)
    requires lock <= i <= |src| && at + 1 + (i - lock) <= dns.Length
    modifies dns
    ensures pos == at + 1 + (i - lock)
    ensures dns[..][..pos] == old(dns[..][..at]) + [LengthByte(src[lock..i])] + src[lock..i]
    ensures dns[..][pos..] == old(dns[..])[pos..]
  {
    dns[at] := ((i - lock) % 256) as byte;
    pos := at + 1;
    for k := lock to i
      invariant pos == at + 1 + (k - lock)
      invariant dns[..pos] == old(dns[..at]) + [LengthByte(src[lock..i])] + src[lock..k]
      invariant dns[pos..] == old(dns[pos..])
    {
      dns[pos] := src[k];
      pos := pos + 1;
      assert src[lock..k + 1] == src[lock..k] + [src[k]];
      assert dns[..pos] == dns[..pos - 1] + [src[k]];
    }
  }

  lemma DotEndedSnoc(labels: seq<Label>, part: Label)
    ensures DotEnded(labels + [part]) == DotEnded(labels) + part + [DOT]
  {
    assert (labels + [part])[..|labels|] == labels;
  }

  lemma RawSnoc(labels: seq<Label>, part: Label)
    ensures Raw(labels + [part]) == Raw(labels) + ([LengthByte(part)] + part)
  {
    assert (labels + [part])[..|labels|] == labels;
  }

  /** What one more byte of the text adds to its fields. */
  lemma OneMoreByte(text: seq<byte>, lock: nat, i: nat)
    requires lock <= i < |text| && text[lock..i] == Tail(text[..i])
    ensures Tail(text[..i + 1]) == if text[i] == DOT then [] else text[lock..i + 1]
    ensures Fields(text[..i + 1]) == if text[i] == DOT then Fields(text[..i]) + [text[lock..i]] else Fields(text[..i])
  {
    var t := text[..i + 1];
    assert t[..i] == text[..i] && t[i] == text[i];
    if text[i] != DOT { assert text[lock..i + 1] == text[lock..i] + [text[i]]; }
  }

  /** The message as written so far: what was there, the encoded fields, and what was there. */
  ghost predicate Written(before: seq<byte>, now: seq<byte>, at: nat, pos: nat, text: seq<byte>) {
    && at <= pos <= |now| == |before|
    && now[..pos] == before[..at] + Raw(Fields(text)) && now[pos..] == before[pos..]
  }

  lemma WrittenAll(before: seq<byte>, now: seq<byte>, at: nat, pos: nat, text: seq<byte>)
    requires Written(before, now, at, pos, text) && pos < |now|
    ensures now[pos := 0] == before[..at] + Wire(Fields(text)) + before[pos + 1..]
  {
    var t := now[pos := 0];
    assert t == now[..pos] + [0] + now[pos + 1..];
    assert now[pos + 1..] == now[pos..][1..] && before[pos + 1..] == before[pos..][1..];
  }

  lemma WrittenNext(before: seq<byte>, now: seq<byte>, next: seq<byte>, at: nat, pos: nat, pos': nat, text: seq<byte>,
                    lock: nat, i: nat)
    requires lock <= i < |text| && text[lock..i] == Tail(text[..i]) && text[i] == DOT
    requires Written(before, now, at, pos, text[..i]) && |next| == |now| && pos' == pos + 1 + (i - lock) <= |now|
    requires next[..pos'] == now[..pos] + [LengthByte(text[lock..i])] + text[lock..i] && next[pos'..] == now[pos'..]
    ensures Written(before, next, at, pos', text[..i + 1])
  {
    OneMoreByte(text, lock, i);
    RawSnoc(Fields(text[..i]), text[lock..i]);
    SameEnd(before, now, pos, pos');
    Joined(before[..at], Raw(Fields(text[..i])), [LengthByte(text[lock..i])], text[lock..i]);
  }

  lemma SameEnd(a: seq<byte>, b: seq<byte>, i: nat, j: nat)
    requires i <= j <= |a| == |b| && a[i..] == b[i..]
    ensures a[j..] == b[j..]
  {
    assert a[j..] == a[i..][j - i..] && b[j..] == b[i..][j - i..];
  }

  lemma Joined(a: seq<byte>, b: seq<byte>, c: seq<byte>, d: seq<byte>)
    ensures a + b + c + d == a + (b + (c + d))
  {
  }

  /**
   * Appends a dot to the host, a zero-terminated string, which its caller sees, and writes the wire format of its labels
   * into the message.
   */
  method ChangeToDnsNameFormat(dns: array<byte>, at: nat, host: seq<byte>) returns (dotted: seq<byte>)
    requires 0 !in host && at + |host| + 2 <= dns.Length
    modifies dns
    ensures dotted == host + [46]
    ensures dns[..] == old(dns[..])[..at] + Wire(Fields(dotted)) + old(dns[..])[at + |host| + 2..]
  {
    dotted := host + [DOT];
    ghost var before := dns[..];
    var lock, pos := 0, at;
    for i := 0 to |dotted|
      invariant Encoding(before, dns[..], at, pos, dotted, lock, i)
    {
      EncodingNext(before, dns[..], at, pos, dotted, lock, i);
      if dotted[i] == DOT {
        ghost var now := dns[..];
        pos := WriteLabel(dns, pos, dotted, lock, i);
        EncodingDot(before, now, dns[..], at, pos, dotted, lock, i);
        lock := i + 1;
      }
    }
    EncodingEnds(before, dns[..], at, pos, dotted, lock);
    dns[pos] := 0;
  }

  /** Between two rounds: the first i bytes of the text are looked at, those from lock on are not written yet. */
  ghost predicate Encoding(before: seq<byte>, now: seq<byte>, at: nat, pos: nat, text: seq<byte>, lock: nat, i: nat) {
    && lock <= i <= |text| && pos == at + lock && text[lock..i] == Tail(text[..i])
    && Written(before, now, at, pos, text[..i])
  }

  lemma EncodingNext(before: seq<byte>, now: seq<byte>, at: nat, pos: nat, text: seq<byte>, lock: nat, i: nat)
    requires Encoding(before, now, at, pos, text, lock, i) && i < |text|
    ensures text[i] != DOT ==> Encoding(before, now, at, pos, text, lock, i + 1)
  {
    OneMoreByte(text, lock, i);
  }

  lemma EncodingDot(before: seq<byte>, now: seq<byte>, next: seq<byte>, at: nat, pos': nat, text: seq<byte>,
                    lock: nat, i: nat)
    requires Encoding(before, now, at, at + lock, text, lock, i) && i < |text| && text[i] == DOT
    requires |next| == |now| && pos' == at + i + 1 <= |now|
    requires next[..pos'] == now[..at + lock] + [LengthByte(text[lock..i])] + text[lock..i] && next[pos'..] == now[pos'..]
    ensures Encoding(before, next, at, pos', text, i + 1, i + 1)
  {
    OneMoreByte(text, lock, i);
    WrittenNext(before, now, next, at, at + lock, pos', text, lock, i);
    assert text[i + 1..i + 1] == [];
  }

  lemma EncodingEnds(before: seq<byte>, now: seq<byte>, at: nat, pos: nat, text: seq<byte>, lock: nat)
    requires Encoding(before, now, at, pos, text, lock, |text|) && text != [] && text[|text| - 1] == DOT
    requires at + |text| < |now|
    ensures pos == at + |text| && now[pos := 0] == before[..at] + Wire(Fields(text)) + before[pos + 1..]
  {
    assert text[..|text|] == text && Tail(text) == [];
    WrittenAll(before, now, at, pos, text);
  }

  /** The labels of a host name: the fields between its dots. */
  function HostLabels(host: seq<byte>): seq<Label> {
    Fields(host + [DOT])
  }

  lemma HostSpelled(host: seq<byte>)
    ensures HostLabels(host) != [] && Dotted(HostLabels(host)) == host
    ensures |Raw(HostLabels(host))| == |host| + 1
  {
    var text := host + [DOT];
    FieldsSpell(text);
    assert Tail(text) == [];
    assert text == DotEnded(HostLabels(host));
    SameSize(HostLabels(host));
  }

  /** A host is split at the dots, byte 46: no label holds one, and what holds none is one label. */
  lemma SplitAtDots(host: seq<byte>)
    ensures forall k :: 0 <= k < |HostLabels(host)| ==> 46 !in HostLabels(host)[k]
    ensures 46 !in host ==> HostLabels(host) == [host]
  {
    FieldsSpell(host + [DOT]);
    if 46 !in host {
      assert DotEnded([]) == [] && [] + [host] == [host];
      DotEndedSnoc([], host);
      assert DotEnded([host]) == host + [DOT];
      FieldsInverse([host]);
    }
  }

  /** Two hosts with a dot between them have the labels of both. */
  lemma SplitBetween(a: seq<byte>, b: seq<byte>)
    ensures HostLabels(a + [46] + b) == HostLabels(a) + HostLabels(b)
  {
    FieldsSpell(a + [DOT]);
    FieldsSpell(b + [DOT]);
    assert Tail(a + [DOT]) == [] && Tail(b + [DOT]) == [];
    DotEndedConcat(HostLabels(a), HostLabels(b));
    assert a + [46] + b + [DOT] == DotEnded(HostLabels(a) + HostLabels(b));
    FieldsInverse(HostLabels(a) + HostLabels(b));
  }

  /** The text of two names in a row has such a dot between them. */
  lemma DottedJoin(a: seq<Label>, b: seq<Label>)
    requires a != [] && b != []
    ensures Dotted(a + b) == Dotted(a) + [46] + Dotted(b)
  {
    DotEndedConcat(a, b);
    SameSize(a);
    SameSize(b);
    assert DotEnded(a) == Dotted(a) + [46];
  }
}
