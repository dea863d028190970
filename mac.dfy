/** The Ethernet II frame builder of src/mac.py: destination and source link
    addresses, a big-endian ethertype and the payload, zero-padded to a
    multiple of 8 bytes. No preamble, no FCS, no minimum frame size. */
module Mac {
  import opened Common

  const Ipv4EtherType := 0x0800
  const Alignment := 8
  const MacLength := 6
  const HeaderLength := 14
  const Separator := ':'

  // ---- str.split and its inverse ----

  /** Python's s.split(sep): the maximal runs between separators, always at
      least one (possibly empty) group. */
  function Split(s: string, sep: char): (groups: seq<string>)
    ensures |groups| >= 1
    decreases |s|
  {
    if |s| == 0 then [""]
    else
      var rest := Split(s[1..], sep);
      if s[0] == sep then [""] + rest else [[s[0]] + rest[0]] + rest[1..]
  }

  /** sep.join(groups). */
  function Join(groups: seq<string>, sep: char): string
    requires |groups| >= 1
  {
    if |groups| == 1 then groups[0] else groups[0] + [sep] + Join(groups[1..], sep)
  }

  /** Number of occurrences of c in s. */
  function Count(s: string, c: char): nat {
    if |s| == 0 then 0 else (if s[0] == c then 1 else 0) + Count(s[1..], c)
  }

  /** Splitting loses nothing: joining the groups gives the string back. */
  lemma {:induction false} JoinSplit(s: string, sep: char)
    ensures Join(Split(s, sep), sep) == s
  {
    if |s| > 0 {
      JoinSplit(s[1..], sep);
      var rest := Split(s[1..], sep);
      if s[0] != sep {
        if |rest| == 1 {
          assert [s[0]] + rest[0] == s;
        } else {
          assert rest == [rest[0]] + rest[1..];
          assert Join(rest, sep) == rest[0] + [sep] + Join(rest[1..], sep);
          assert ([s[0]] + rest[0]) + [sep] + Join(rest[1..], sep) == [s[0]] + Join(rest, sep);
        }
      }
    }
  }

  /** There is one group more than there are separators. */
  lemma {:induction false} SplitGroupCount(s: string, sep: char)
    ensures |Split(s, sep)| == Count(s, sep) + 1
  {
    if |s| > 0 {
      SplitGroupCount(s[1..], sep);
    }
  }

  /** Prepending a character that is not the separator extends the first group. */
  lemma SplitCons(c: char, s: string, sep: char)
    requires c != sep
    ensures Split([c] + s, sep) == [[c] + Split(s, sep)[0]] + Split(s, sep)[1..]
  {
    assert ([c] + s)[1..] == s;
  }

  /** Splitting a group followed by a separator and more text. */
  lemma {:induction false} SplitAfterGroup(g: string, rest: string, sep: char)
    requires sep !in g
    ensures Split(g + [sep] + rest, sep) == [g] + Split(rest, sep)
    decreases |g|
  {
    if |g| == 0 {
      assert g + [sep] + rest == [sep] + rest;
      assert ([sep] + rest)[1..] == rest;
    } else {
      assert g + [sep] + rest == [g[0]] + (g[1..] + [sep] + rest);
      SplitCons(g[0], g[1..] + [sep] + rest, sep);
      SplitAfterGroup(g[1..], rest, sep);
      assert [g[0]] + g[1..] == g;
    }
  }

  /** A group without separators splits to itself. */
  lemma {:induction false} SplitPlain(g: string, sep: char)
    requires sep !in g
    ensures Split(g, sep) == [g]
    decreases |g|
  {
    if |g| > 0 {
      SplitPlain(g[1..], sep);
      assert [g[0]] + g[1..] == g;
    }
  }

  /** Joining groups that contain no separator and splitting again gives the
      same groups back. */
  lemma {:induction false} SplitJoin(groups: seq<string>, sep: char)
    requires |groups| >= 1
    requires forall i | 0 <= i < |groups| :: sep !in groups[i]
    ensures Split(Join(groups, sep), sep) == groups
  {
    if |groups| == 1 {
      SplitPlain(groups[0], sep);
    } else {
      SplitJoin(groups[1..], sep);
      SplitAfterGroup(groups[0], Join(groups[1..], sep), sep);
      assert [groups[0]] + groups[1..] == groups;
    }
  }

  // ---- hexadecimal groups ----

  predicate IsHexDigit(c: char) {
    '0' <= c <= '9' || 'a' <= c <= 'f' || 'A' <= c <= 'F'
  }

  predicate IsHexString(g: string) {
    forall i | 0 <= i < |g| :: IsHexDigit(g[i])
  }

  function HexDigitValue(c: char): (v: nat)
    requires IsHexDigit(c)
    ensures v < 16
  {
    if '0' <= c <= '9' then c as int - '0' as int
    else if 'a' <= c <= 'f' then c as int - 'a' as int + 10
    else c as int - 'A' as int + 10
  }

  /** The lower-case hexadecimal digit of v. */
  function HexChar(v: nat): (c: char)
    requires v < 16
    ensures IsHexDigit(c) && HexDigitValue(c) == v
  {
    if v < 10 then ('0' as int + v) as char else ('a' as int + v - 10) as char
  }

  /** The value of a string of hexadecimal digits, most significant first. */
  function HexValue(g: string): nat
    requires IsHexString(g)
  {
    if |g| == 0 then 0 else HexValue(g[..|g| - 1]) * 16 + HexDigitValue(g[|g| - 1])
  }

  /** One group: int(x, base=16), then the range check bytes() makes. */
  function ParseOctet(g: string): (r: Result<Byte>)
    ensures r.Ok? <==> |g| > 0 && IsHexString(g) && HexValue(g) < 0x100
    ensures r.Ok? ==> r.value == HexValue(g)
  {
    if |g| == 0 || !IsHexString(g) then Err(MacInvalidHex)
    else if HexValue(g) >= 0x100 then Err(MacByteRange)
    else Ok(HexValue(g))
  }

  /** The groups converted left to right; the first bad group decides the error. */
  function ParseOctets(groups: seq<string>): (r: Result<Bytes>)
    ensures r.Ok? <==> forall i | 0 <= i < |groups| :: ParseOctet(groups[i]).Ok?
    ensures r.Ok? ==> |r.value| == |groups|
    ensures r.Ok? ==> forall i | 0 <= i < |groups| :: ParseOctet(groups[i]) == Ok(r.value[i])
  {
    if |groups| == 0 then Ok([])
    else
      var first :- ParseOctet(groups[0]);
      var rest :- ParseOctets(groups[1..]);
      Ok([first] + rest)
  }

  /** Packet._mac_string_to_bytes (src/mac.py:23-29). */
  function ParseMac(s: string): (r: Result<Bytes>)
    ensures r.Ok? <==> && |Split(s, Separator)| == MacLength
                       && forall i | 0 <= i < MacLength :: ParseOctet(Split(s, Separator)[i]).Ok?
    ensures r.Ok? ==> |r.value| == MacLength
    ensures r.Ok? ==> forall i | 0 <= i < MacLength :: ParseOctet(Split(s, Separator)[i]) == Ok(r.value[i])
    ensures |Split(s, Separator)| != MacLength ==> r == Err(MacGroupCount)
  {
    var groups := Split(s, Separator);
    if |groups| != MacLength then Err(MacGroupCount) else ParseOctets(groups)
  }

  /** The usual text form of a link address: six two-digit groups, lower case. */
  function FormatOctet(b: Byte): string {
    [HexChar(b / 16), HexChar(b % 16)]
  }

  function FormatMac(m: Bytes): string
    requires |m| == MacLength
  {
    Join(seq(MacLength, i requires 0 <= i < MacLength => FormatOctet(m[i])), Separator)
  }

  lemma FormatOctetParses(b: Byte)
    ensures ParseOctet(FormatOctet(b)) == Ok(b)
  {
    var g := FormatOctet(b);
    assert g[..1] == [HexChar(b / 16)] && g[..1][..0] == [];
    assert HexValue(g[..1]) == b / 16;
    assert HexValue(g) == (b / 16) * 16 + b % 16;
  }

  /** Every address in text form is accepted and gives back its six bytes. */
  lemma MacRoundTrip(m: Bytes)
    requires |m| == MacLength
    ensures ParseMac(FormatMac(m)) == Ok(m)
  {
    var groups := seq(MacLength, i requires 0 <= i < MacLength => FormatOctet(m[i]));
    forall i | 0 <= i < |groups| ensures Separator !in groups[i] {
      assert groups[i] == [HexChar(m[i] / 16), HexChar(m[i] % 16)];
    }
    SplitJoin(groups, Separator);
    OctetsRoundTrip(groups, m);
  }

  /** Any six hexadecimal groups worth less than 256 each, in either case and
      of any length, joined with colons, are accepted and give their values
      in order ("AA:BB:CC:DD:EE:FF", "0:1:2:3:4:5"). */
  lemma HexGroupsAccepted(groups: seq<string>)
    requires |groups| == MacLength
    requires forall i | 0 <= i < MacLength :: |groups[i]| > 0 && IsHexString(groups[i]) && HexValue(groups[i]) < 0x100
    ensures ParseMac(Join(groups, Separator)).Ok?
    ensures forall i | 0 <= i < MacLength :: ParseMac(Join(groups, Separator)).value[i] == HexValue(groups[i])
  {
    assert forall i | 0 <= i < |groups| :: Separator !in groups[i];
    SplitJoin(groups, Separator);
  }

  lemma {:induction false} OctetsRoundTrip(groups: seq<string>, m: Bytes)
    requires |groups| == |m|
    requires forall i | 0 <= i < |m| :: groups[i] == FormatOctet(m[i])
    ensures ParseOctets(groups) == Ok(m)
  {
    if |m| > 0 {
      FormatOctetParses(m[0]);
      OctetsRoundTrip(groups[1..], m[1..]);
      assert [m[0]] + m[1..] == m;
    }
  }

  /** Count is additive over concatenation. */
  lemma {:induction false} CountAppend(a: string, b: string, c: char)
    ensures Count(a + b, c) == Count(a, c) + Count(b, c)
  {
    if |a| > 0 {
      assert (a + b)[1..] == a[1..] + b;
      CountAppend(a[1..], b, c);
    } else {
      assert a + b == b;
    }
  }

  /** An illustration only, of the misleading "Too many" message: ParseMac's
      contract already refuses every group count other than six with
      MacGroupCount, and this instance shows three groups getting that error. */
  lemma FewerGroupsRefused()
    ensures ParseMac("aa:bb:cc") == Err(MacGroupCount)
  {
    var s := "aa:bb:cc";
    assert s == "aa:" + "bb:" + "cc";
    assert Count("aa:", Separator) == 1 by { assert "aa:"[1..] == "a:"; assert "a:"[1..] == ":"; assert ":"[1..] == ""; }
    assert Count("bb:", Separator) == 1 by { assert "bb:"[1..] == "b:"; assert "b:"[1..] == ":"; assert ":"[1..] == ""; }
    assert Count("cc", Separator) == 0 by { assert "cc"[1..] == "c"; assert "c"[1..] == ""; }
    CountAppend("aa:", "bb:", Separator);
    CountAppend("aa:" + "bb:", "cc", Separator);
    SplitGroupCount(s, Separator);
  }

  // ---- the frame ----

  /** mac.Packet (src/mac.py:31-35): the constructor only stores its
      arguments, so it cannot fail; nothing is parsed until BuildFrame. */
  datatype Packet = Packet(sourceMac: string, destMac: string, etherType: int, data: Bytes)

  /** The zero bytes construct's Aligned(8, ...) appends to n bytes. */
  function PaddingLength(n: nat): (p: nat)
    ensures (n + p) % Alignment == 0 && p < Alignment
  {
    (Alignment - n % Alignment) % Alignment
  }

  /** Packet.build (src/mac.py:11-21, 37-43). The destination address is
      parsed, and written, first. */
  function BuildFrame(p: Packet): (r: Result<Bytes>)
    ensures r.Ok? <==> ParseMac(p.destMac).Ok? && ParseMac(p.sourceMac).Ok? && IsU16(p.etherType)
    ensures ParseMac(p.destMac).Err? ==> r == Err(ParseMac(p.destMac).error)
    ensures r.Ok? ==> |r.value| % Alignment == 0
    ensures r.Ok? ==> HeaderLength + |p.data| <= |r.value| < HeaderLength + |p.data| + Alignment
  {
    var dst :- ParseMac(p.destMac);
    var src :- ParseMac(p.sourceMac);
    if !IsU16(p.etherType) then Err(FieldOverflow)
    else
      var unpadded := dst + src + BE16(p.etherType) + p.data;
      Ok(unpadded + Zeros(PaddingLength(|unpadded|)))
  }

  /** The fields of a frame, read back from its bytes. */
  datatype FrameFields = FrameFields(destination: Bytes, source: Bytes, etherType: int, payload: Bytes)

  function ParseFrame(b: Bytes): FrameFields
    requires |b| >= HeaderLength
  {
    FrameFields(b[..6], b[6..12], BE16At(b, 12), b[HeaderLength..])
  }

  /** Reading a built frame back: destination first, then source, then the
      ethertype, then the payload followed by zero padding only. */
  lemma FrameLayout(p: Packet)
    requires BuildFrame(p).Ok?
    ensures var b := BuildFrame(p).value;
            var f := ParseFrame(b);
            && f.destination == ParseMac(p.destMac).value
            && f.source == ParseMac(p.sourceMac).value
            && f.etherType == p.etherType
            && f.payload[..|p.data|] == p.data
            && forall i | |p.data| <= i < |f.payload| :: f.payload[i] == 0
  {
    var dst, src := ParseMac(p.destMac).value, ParseMac(p.sourceMac).value;
    var unpadded := dst + src + BE16(p.etherType) + p.data;
    var b := BuildFrame(p).value;
    assert b == unpadded + Zeros(PaddingLength(|unpadded|));
    assert b[..6] == dst;
    assert b[6..12] == src;
    assert b[12] == BE16(p.etherType)[0] && b[13] == BE16(p.etherType)[1];
    var payload := b[HeaderLength..];
    assert payload == p.data + Zeros(PaddingLength(|unpadded|));
  }

  /** The reply frame, with the two addresses exchanged, builds exactly when
      the forward frame does: the payloads play no part in the outcome. */
  lemma ReversedFrameBuilds(p: Packet, q: Packet)
    requires q.sourceMac == p.destMac && q.destMac == p.sourceMac && q.etherType == p.etherType
    ensures BuildFrame(q).Ok? <==> BuildFrame(p).Ok?
  {
  }
}
