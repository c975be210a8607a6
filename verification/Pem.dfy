/** PEM text on the console: the printer `vPrintDer` and the reader `xReadPemFromCliAsDer`. */
module Pem {
  import opened Basics
  import opened Base64
  import LineEditor

  const LINE := 64           // PEM_LINE_BUFF_LEN
  const CHUNK := 48          // DER_BYTES_PER_PEM_LINE
  const MAX_LEN := 2048      // PEM_CERT_MAX_LEN
  const BEGIN := "-----BEGIN "
  const END := "-----END "
  const SUFFIX := "-----"
  const EOL := "\r\n"

  // ---------------------------------------------------------------------------
  // Printing
  // ---------------------------------------------------------------------------

  /** The data lines of a DER object, without their line ends. */
  function DataLines(der: seq<Byte>): seq<string> {
    if der == [] then []
    else
      var n := FirstChunk(der);
      [Encode(der[..n])] + DataLines(der[n..])
  }

  function FirstChunk(der: seq<Byte>): nat {
    if |der| < CHUNK then |der| else CHUNK
  }

  function WithEol(lines: seq<string>): seq<string> {
    if lines == [] then [] else [lines[0] + EOL] + WithEol(lines[1..])
  }

  /** Every data line but the last has exactly 64 characters, the last at most so many. */
  lemma {:induction false} DataLineLengths(der: seq<Byte>)
    ensures |DataLines(der)| == (|der| + 47) / 48
    ensures forall i :: 0 <= i < |DataLines(der)| - 1 ==> |DataLines(der)[i]| == 64
    ensures der != [] ==> 0 < |DataLines(der)[|DataLines(der)| - 1]| <= 64
  {
    hide Encode;
    if der != [] {
      DataLineLengths(der[FirstChunk(der)..]);
    }
  }

  /** mbedtls_base64_encode into a buffer of which `room` bytes may be used: the text and
      a terminator, or an error if they do not fit. */
  method EncodeInto(buffer: array<char>, room: nat, source: seq<Byte>) returns (ok: bool, written: nat)
    requires room <= buffer.Length
    modifies buffer
    ensures ok <==> |Encode(source)| < room
    ensures ok ==> written == |Encode(source)| && buffer[..written] == Encode(source)
  {
    var text := Encode(source);
    ok, written := |text| < room, |text|;
    if ok {
      forall i | 0 <= i < |text| {
        buffer[i] := text[i];
      }
      buffer[written] := '\0';
    }
  }

  /** The body of the print loop: one line through the line buffer, which has room for a
      full line, its line end and a terminator. */
  method PrintLine(buffer: array<char>, chunk: seq<Byte>) returns (text: string)
    requires buffer.Length == LINE + 3 && |chunk| <= CHUNK
    modifies buffer
    ensures text == Encode(chunk) + EOL
  {
    hide Encode;
    var ok, written := EncodeInto(buffer, LINE + 1, chunk);
    buffer[written], buffer[written + 1], buffer[written + 2] := '\r', '\n', '\0';
    written := written + 2;
    assert buffer[..written] == buffer[..written - 2] + EOL;
    text := buffer[..written];
  }

  lemma PrintStep(der: seq<Byte>)
    requires der != []
    ensures var n := FirstChunk(der);
            WithEol(DataLines(der)) == [Encode(der[..n]) + EOL] + WithEol(DataLines(der[n..]))
  {
    hide Encode;
    assert DataLines(der)[1..] == DataLines(der[FirstChunk(der)..]);
  }

  lemma NothingToPrint()
    ensures WithEol(DataLines([])) == []
  {
  }

  /** vPrintDer: `out` lists what goes to the console, one write at a time. */
  method PrintDer(header: string, footer: string, der: seq<Byte>) returns (out: seq<string>)
    ensures out == [header] + WithEol(DataLines(der)) + [footer]
  {
    hide Encode, DataLines, WithEol;
    NothingToPrint();
    var buffer := new char[LINE + 3];
    out := [header];
    var at := 0;
    ghost var left := der;
    while at < |der|
      invariant left == if at < |der| then der[at..] else []
      invariant [header] + WithEol(DataLines(der)) == out + WithEol(DataLines(left))
    {
      var n := CHUNK;
      if |der| - at < CHUNK {
        n := |der| - at;
      }
      assert n == FirstChunk(left) && der[at..at + n] == left[..n];
      var text := PrintLine(buffer, der[at..at + n]);
      PrintStep(left);
      out := out + [text];
      left := left[n..];
      at := at + CHUNK;
    }
    out := out + [footer];
  }

  // ---------------------------------------------------------------------------
  // Reading
  // ---------------------------------------------------------------------------

  /** strnstr for the suffix. */
  predicate HasSuffix(s: string) {
    SUFFIX <= s || (s != [] && HasSuffix(s[1..]))
  }

  predicate IsHeader(line: string) {
    BEGIN <= line && HasSuffix(line[|BEGIN|..])
  }

  predicate IsFooter(line: string) {
    END <= line && HasSuffix(line[|END|..])
  }

  /** mbedtls_base64_decode of a text into a given number of bytes; None for an error. */
  type Decoder = (string, nat) -> Option<seq<Byte>>

  /** What the reader needs of the library's decoder: it inverts the encoder as far as there is
      room, it writes no more than the room and at most three bytes for four characters, and
      it takes no text that starts with a hyphen. Which other texts it takes is left open. */
  ghost predicate IsDecoder(decode: Decoder) {
    && (forall s, room :: decode(Encode(s), room) == if |s| <= room then Some(s) else None)
    && (forall t, room :: decode(t, room).Some? ==> |decode(t, room).value| <= room && 4 * |decode(t, room).value| <= 3 * |t|)
    && forall t, room :: t != "" && t[0] == '-' ==> decode(t, room) == None
  }

  lemma DecodesShorter(decode: Decoder, t: string, room: nat)
    requires IsDecoder(decode) && decode(t, room).Some?
    ensures |decode(t, room).value| <= room && 4 * |decode(t, room).value| <= 3 * |t|
  {
  }

  lemma DecodesEncoded(decode: Decoder, s: seq<Byte>, room: nat)
    requires IsDecoder(decode)
    ensures decode(Encode(s), room) == if |s| <= room then Some(s) else None
  {
  }

  lemma MarkNotDecoded(decode: Decoder, t: string, room: nat)
    requires IsDecoder(decode) && END <= t
    ensures decode(t, room) == None
  {
    assert t[0] == END[0] == '-';
  }

  /** The strict decoder of RFC 4648, limited to the room. */
  function StrictDecode(t: string, room: nat): Option<seq<Byte>> {
    if Decode(t).Some? && |Decode(t).value| > room then None else Decode(t)
  }

  lemma StrictDecoder()
    ensures IsDecoder(StrictDecode)
  {
    hide Encode, Decode;
    forall s: seq<Byte>
      ensures Decode(Encode(s)) == Some(s)
    {
      DecodeEncode(s);
    }
    forall t: string
      ensures Decode(t).Some? ==> 4 * |Decode(t).value| <= 3 * |t|
      ensures t != "" && t[0] == '-' ==> Decode(t) == None
    {
      DecodedLength(t);
      HyphenNotDecoded(t);
    }
  }

  lemma HyphenNotDecoded(t: string)
    ensures t != "" && t[0] == '-' ==> Decode(t) == None
  {
  }

  /** `Waiting` is a reader that still wants lines, `Halted` one that failed its assertion. */
  datatype Outcome = Done(der: seq<Byte>) | Error | Waiting | Halted

  /** A line that is too long, or for which the buffer might be too small. */
  predicate Refused(line: string, got: nat) {
    |line| > LINE || got + |line| + 1 >= MAX_LEN
  }

  function Room(got: nat): nat {
    if got < MAX_LEN then MAX_LEN - got else 0
  }

  /** What comes of a refused line. It is decoded all the same once the header was found, and
      if it fills the buffer to the last byte the assertion after the decoder fails. */
  function AfterRefusal(decode: Decoder, line: string, begun: bool, got: nat): Outcome {
    if begun && decode(line, Room(got)).Some? && got + |decode(line, Room(got)).value| == MAX_LEN then Halted else Error
  }

  /** What reading the lines yields once `got` has been decoded. */
  function Read(decode: Decoder, lines: seq<string>, begun: bool, got: seq<Byte>): Outcome
    decreases |lines|
  {
    if lines == [] then Waiting
    else
      var line, rest := lines[0], lines[1..];
      if |line| == 0 then Error
      else if Refused(line, |got|) then AfterRefusal(decode, line, begun, |got|)
      else if !begun then
        if IsHeader(line) then Read(decode, rest, true, got) else Error
      else if END <= line then
        if IsFooter(line) then Done(got) else Error
      else
        match decode(line, Room(|got|))
        case None => Error
        case Some(bytes) => Read(decode, rest, true, got + bytes)
  }

  /** The decoder's output goes behind what is there. */
  method Store(buffer: array<Byte>, len: nat, bytes: seq<Byte>)
    requires len + |bytes| <= buffer.Length
    modifies buffer
    ensures buffer[..len + |bytes|] == old(buffer[..len]) + bytes
  {
    forall k | 0 <= k < |bytes| {
      buffer[len + k] := bytes[k];
    }
    assert buffer[..len] == old(buffer[..len]);
    assert buffer[len..len + |bytes|] == bytes;
    assert buffer[..len + |bytes|] == buffer[..len] + buffer[len..len + |bytes|];
  }

  /** xReadPemFromCliAsDer on the lines that the console delivers. An error does not end the
      pass: a line that was refused still reaches the decoder. The assertion after it fails
      exactly if the decoded bytes fill the buffer. */
  method ReadPem(decode: Decoder, lines: seq<string>) returns (result: Outcome)
    requires IsDecoder(decode)
    ensures result == Read(decode, lines, false, [])
  {
    hide HasSuffix, IsHeader, IsFooter, IsDecoder, Encode;
    var buffer := new Byte[MAX_LEN](_ => 0);
    var len: nat, i: nat := 0, 0;
    var begun, ended, failed := false, false, false;
    assert buffer[..len] == [] && lines[0..] == lines;
    while len < MAX_LEN && !ended
      invariant len < MAX_LEN && i <= |lines| && !failed
      invariant !ended ==> Read(decode, lines, false, []) == Read(decode, lines[i..], begun, buffer[..len])
      invariant ended ==> Read(decode, lines, false, []) == Done(buffer[..len])
      decreases |lines| - i, !ended
    {
      if i == |lines| {
        return Waiting;
      }
      var line := lines[i];
      i := i + 1;
      assert lines[i - 1..][0] == line && lines[i - 1..][1..] == lines[i..];
      if |line| > 0 {
        if |line| > LINE {
          failed := true;
        } else if len + |line| + 1 >= MAX_LEN {
          failed := true;
        } else if !begun {
          if IsHeader(line) {
            begun := true;
            continue;
          }
          failed := true;
        } else if END <= line {
          if IsFooter(line) {
            ended := true;
          } else {
            failed := true;
            MarkNotDecoded(decode, line, MAX_LEN - len);
          }
        }
        if begun && !ended {
          var decoded := decode(line, MAX_LEN - len);
          if decoded.Some? {
            DecodesShorter(decode, line, MAX_LEN - len);
            Store(buffer, len, decoded.value);
            len := len + |decoded.value|;
            if len >= MAX_LEN {
              return Halted;  // configASSERT, line 675
            }
          } else {
            failed := true;
          }
        }
      } else {
        failed := true;
      }
      if failed {
        return Error;
      }
    }
    result := Done(buffer[..len]);
  }

  // ---------------------------------------------------------------------------
  // Round trip
  // ---------------------------------------------------------------------------

  lemma NotFooter(s: seq<Byte>)
    requires s != []
    ensures !(END <= Encode(s))
  {
    assert END[0] == '-';
  }

  /** Reading one data line. */
  lemma ReadOne(decode: Decoder, head: seq<Byte>, rest: seq<string>, got: seq<Byte>)
    requires IsDecoder(decode) && 0 < |head| <= CHUNK && |got| < MAX_LEN
    ensures Read(decode, [Encode(head)] + rest, true, got) ==
            if |got| + (|head| + 2) / 3 * 4 + 1 < MAX_LEN then Read(decode, rest, true, got + head)
            else if |got| + |head| == MAX_LEN then Halted else Error
  {
    hide Encode, IsHeader, IsFooter, HasSuffix, IsDecoder;
    var lines := [Encode(head)] + rest;
    assert lines[0] == Encode(head) && lines[1..] == rest;
    NotFooter(head);
    DecodesEncoded(decode, head, MAX_LEN - |got|);
  }

  lemma ReadFooter(decode: Decoder, got: seq<Byte>, footer: string)
    requires IsDecoder(decode) && IsFooter(footer) && |footer| <= LINE
    ensures Read(decode, [footer], true, got) == if |got| + |footer| + 1 < MAX_LEN then Done(got) else Error
  {
    hide IsDecoder;
    FooterLength(footer);
    MarkNotDecoded(decode, footer, Room(|got|));
  }

  /** Reading back the data lines and a footer, after `got` was read. */
  lemma {:induction false} ReadDataLines(decode: Decoder, der: seq<Byte>, got: seq<Byte>, footer: string)
    requires IsDecoder(decode) && IsFooter(footer) && |footer| <= LINE
    requires |got| < MAX_LEN && (der != [] ==> |got| % CHUNK == 0)
    ensures Read(decode, DataLines(der) + [footer], true, got) ==
            if |got| + |der| + |footer| + 1 < MAX_LEN then Done(got + der)
            else if |got| + |der| == MAX_LEN then Halted else Error
    decreases |der|
  {
    hide Encode, IsDecoder, Read, IsFooter, DataLines;
    if der == [] {
      assert DataLines(der) + [footer] == [footer] by { NoLines(); }
      assert got + der == got;
      ReadFooter(decode, got, footer);
    } else {
      var n := FirstChunk(der);
      var head, tail := der[..n], der[n..];
      LinesStep(der, footer);
      NextChunk(|got|, |der|, n);
      ReadOne(decode, head, DataLines(tail) + [footer], got);
      FooterLength(footer);
      if |got| + (n + 2) / 3 * 4 + 1 < MAX_LEN {
        ReadDataLines(decode, tail, got + head, footer);
        assert got + head + tail == got + der by { assert der == head + tail; }
      } else {
        LineTooLong(|got|, |der|, n, |footer|);
        assert |got| + n == MAX_LEN <==> |got| + |der| == MAX_LEN;
      }
    }
  }

  lemma NoLines()
    ensures DataLines([]) == []
  {
  }

  lemma LinesStep(der: seq<Byte>, footer: string)
    requires der != []
    ensures var n := FirstChunk(der);
            0 < n <= |der| && DataLines(der) + [footer] == [Encode(der[..n])] + (DataLines(der[n..]) + [footer])
  {
    var n := FirstChunk(der);
    ConsAppend(Encode(der[..n]), DataLines(der[n..]), footer, DataLines(der)) by { hide Encode; }
  }

  lemma ConsAppend(head: string, tail: seq<string>, footer: string, all: seq<string>)
    requires all == [head] + tail
    ensures all + [footer] == [head] + (tail + [footer])
  {
  }

  lemma NextChunk(got: nat, der: nat, n: nat)
    requires got % CHUNK == 0 && n == if der < CHUNK then der else CHUNK
    ensures der > n ==> (got + n) % CHUNK == 0
  {
  }

  lemma FooterLength(footer: string)
    requires IsFooter(footer)
    ensures |footer| >= 14
  {
    SuffixLength(footer[|END|..]);
  }

  /** Five hyphens at position `i`. */
  predicate HyphensAt(s: string, i: nat) {
    i + 5 <= |s| && s[i] == s[i + 1] == s[i + 2] == s[i + 3] == s[i + 4] == '-'
  }

  lemma {:induction false} HasSuffixIff(s: string)
    ensures HasSuffix(s) <==> exists i: nat :: HyphensAt(s, i)
  {
    assert SUFFIX <= s <==> HyphensAt(s, 0);
    if s != [] {
      var t := s[1..];
      HasSuffixIff(t);
      hide HasSuffix;
      assert forall i: nat :: HyphensAt(t, i) ==> HyphensAt(s, i + 1);
      assert forall i: nat :: i > 0 && HyphensAt(s, i) ==> HyphensAt(t, i - 1);
      HasSuffixStep(s);
    }
  }

  lemma HasSuffixStep(s: string)
    requires s != []
    ensures HasSuffix(s) <==> SUFFIX <= s || HasSuffix(s[1..])
  {
  }

  lemma HyphensBehind(s: string, n: nat)
    requires n <= |s|
    ensures (exists i: nat :: HyphensAt(s[n..], i)) <==> exists i: nat :: n <= i && HyphensAt(s, i)
  {
    assert forall i: nat :: HyphensAt(s[n..], i) ==> HyphensAt(s, n + i);
    assert forall i: nat :: n <= i && HyphensAt(s, i) ==> HyphensAt(s[n..], i - n);
  }

  /** The two marks, in the words of section 3 of RFC 7468. */
  lemma MarksAre(line: string)
    ensures IsHeader(line) <==> "-----BEGIN " <= line && exists i: nat :: 11 <= i && HyphensAt(line, i)
    ensures IsFooter(line) <==> "-----END " <= line && exists i: nat :: 9 <= i && HyphensAt(line, i)
  {
    hide HasSuffix, HyphensAt;
    if "-----BEGIN " <= line {
      HasSuffixIff(line[11..]);
      HyphensBehind(line, 11);
    }
    if "-----END " <= line {
      HasSuffixIff(line[9..]);
      HyphensBehind(line, 9);
    }
  }

  /** The first line decides: the reader goes on exactly if it has at most 64 characters and
      is a header, and else gives up. */
  lemma HeaderNeeded(decode: Decoder, line: string, rest: seq<string>)
    ensures Read(decode, [line] + rest, false, []) ==
            if |line| <= 64 && "-----BEGIN " <= line && exists i: nat :: 11 <= i && HyphensAt(line, i)
            then Read(decode, rest, true, []) else Error
  {
    hide IsHeader, IsFooter, HyphensAt;
    MarksAre(line);
    assert ([line] + rest)[0] == line && ([line] + rest)[1..] == rest;
  }

  /** A line with the closing words ends the reading, well or badly, if there is room for it. */
  lemma FooterEnds(decode: Decoder, line: string, rest: seq<string>, got: seq<Byte>)
    requires |line| <= 64 && |got| + |line| < 2047 && "-----END " <= line
    ensures Read(decode, [line] + rest, true, got) ==
            if exists i: nat :: 9 <= i && HyphensAt(line, i) then Done(got) else Error
  {
    hide IsHeader, IsFooter, HyphensAt;
    MarksAre(line);
    assert ([line] + rest)[0] == line && ([line] + rest)[1..] == rest;
  }

  lemma {:induction false} SuffixLength(s: string)
    requires HasSuffix(s)
    ensures |s| >= 5
  {
    if !(SUFFIX <= s) {
      SuffixLength(s[1..]);
    }
  }

  /** A data line is refused only where the footer would be refused anyway, and it fills the
      buffer only if it is the last one. */
  lemma LineTooLong(got: nat, der: nat, n: nat, footer: nat)
    requires got % CHUNK == 0 && got < MAX_LEN && footer >= 14 && 0 < n <= der && n == if der < CHUNK then der else CHUNK
    requires got + (n + 2) / 3 * 4 + 1 >= MAX_LEN
    ensures got + der + footer + 1 >= MAX_LEN
    ensures got + n == MAX_LEN <==> got + der == MAX_LEN
  {
    var k := got / CHUNK;
    assert got == 48 * k;
    assert k == 42;
  }

  /** The printed form of a DER object reads back as that object if and only if the object
      and the footer together stay below the buffer size, that is, for a footer of the
      longest permitted line, up to 1982 bytes. Of the longer ones, an object of exactly the
      size of the buffer halts the reader, and all others are refused; none is ever cut. */
  lemma PemRoundTrip(decode: Decoder, header: string, footer: string, der: seq<Byte>)
    requires IsDecoder(decode) && IsHeader(header) && IsFooter(footer) && |header| <= LINE && |footer| <= LINE
    ensures Read(decode, [header] + DataLines(der) + [footer], false, []) ==
            if |der| + |footer| + 1 < MAX_LEN then Done(der) else if |der| == MAX_LEN then Halted else Error
  {
    hide DataLines, Read, IsHeader, IsFooter;
    ReadHeader(decode, header, DataLines(der) + [footer]);
    assert [header] + DataLines(der) + [footer] == [header] + (DataLines(der) + [footer]);
    ReadDataLines(decode, der, [], footer);
    assert [] + der == der;
  }

  lemma ReadHeader(decode: Decoder, header: string, rest: seq<string>)
    requires IsHeader(header) && |header| <= LINE
    ensures Read(decode, [header] + rest, false, []) == Read(decode, rest, true, [])
  {
    hide IsFooter, HasSuffix;
    var lines := [header] + rest;
    assert lines[0] == header && lines[1..] == rest;
    assert |header| > 0 by { assert BEGIN <= header; }
  }

  // ---------------------------------------------------------------------------
  // From console to console
  // ---------------------------------------------------------------------------

  function Concat(writes: seq<string>): string {
    if writes == [] then "" else writes[0] + Concat(writes[1..])
  }

  lemma {:induction false} ConcatWithEol(lines: seq<string>, footer: string)
    ensures Concat(WithEol(lines) + [footer + EOL]) == LineEditor.Joined(lines + [footer])
  {
    var writes := WithEol(lines) + [footer + EOL];
    var all := lines + [footer];
    if lines == [] {
      assert writes == [footer + EOL] && all == [footer];
      assert writes[1..] == [] && all[1..] == [];
    } else {
      assert writes[1..] == WithEol(lines[1..]) + [footer + EOL];
      assert all[1..] == lines[1..] + [footer];
      ConcatWithEol(lines[1..], footer);
    }
  }

  lemma {:induction false} EncodedPlain(s: seq<Byte>)
    ensures LineEditor.AllPlain(Encode(s))
  {
    if |s| >= 3 {
      EncodedPlain(s[3..]);
    }
  }

  lemma {:induction false} DataLinesTypable(der: seq<Byte>)
    ensures forall i :: 0 <= i < |DataLines(der)| ==> LineEditor.Typable(DataLines(der)[i])
  {
    hide Encode;
    if der != [] {
      var n := FirstChunk(der);
      EncodedPlain(der[..n]);
      DataLinesTypable(der[n..]);
    }
  }

  /** Everything the printer writes, typed back into the console, passes through the line
      editor and the reader to the same DER object, exactly as far as the buffer allows. */
  lemma ConsoleRoundTrip(decode: Decoder, header: string, footer: string, der: seq<Byte>, writes: seq<string>)
    requires IsDecoder(decode) && IsHeader(header) && IsFooter(footer) && |header| <= LINE && |footer| <= LINE
    requires LineEditor.AllPlain(header) && LineEditor.AllPlain(footer)
    requires writes == [header + EOL] + WithEol(DataLines(der)) + [footer + EOL]
    ensures Read(decode, LineEditor.Lines(Concat(writes)), false, []) ==
            if |der| + |footer| + 1 < MAX_LEN then Done(der) else if |der| == MAX_LEN then Halted else Error
  {
    hide DataLines, Read, IsFooter, HasSuffix;
    var lines := [header] + DataLines(der) + [footer];
    FooterLength(footer);
    assert LineEditor.Typable(header) by { assert BEGIN <= header; }
    DataLinesTypable(der);
    assert [header] + DataLines(der) + [footer] == ([header] + DataLines(der)) + [footer];
    assert WithEol([header] + DataLines(der)) == [header + EOL] + WithEol(DataLines(der)) by {
      assert ([header] + DataLines(der))[1..] == DataLines(der);
    }
    ConcatWithEol([header] + DataLines(der), footer);
    LineEditor.LinesOfJoined(lines);
    PemRoundTrip(decode, header, footer, der);
  }

  lemma {:induction false} SuffixAtEnd(s: string)
    ensures HasSuffix(s + SUFFIX)
  {
    if s == [] {
      assert s + SUFFIX == SUFFIX;
    } else {
      assert (s + SUFFIX)[1..] == s[1..] + SUFFIX;
      SuffixAtEnd(s[1..]);
    }
  }

  lemma MarksPlain()
    ensures LineEditor.AllPlain(BEGIN) && LineEditor.AllPlain(END) && LineEditor.AllPlain(SUFFIX)
  {
  }

  lemma PlainAppend(s: string, t: string)
    requires LineEditor.AllPlain(s) && LineEditor.AllPlain(t)
    ensures LineEditor.AllPlain(s + t)
  {
  }

  lemma Labelled(name: string)
    requires |name| <= 48 && LineEditor.AllPlain(name)
    ensures var header := BEGIN + name + SUFFIX;
            IsHeader(header) && |header| <= LINE && LineEditor.AllPlain(header)
    ensures var footer := END + name + SUFFIX;
            IsFooter(footer) && |footer| == |name| + 14 <= LINE && LineEditor.AllPlain(footer)
  {
    hide HasSuffix, LineEditor.AllPlain;
    MarksPlain();
    PlainAppend(BEGIN, name);
    PlainAppend(BEGIN + name, SUFFIX);
    PlainAppend(END, name);
    PlainAppend(END + name, SUFFIX);
    SuffixAtEnd(name);
    assert (BEGIN + name + SUFFIX)[|BEGIN|..] == name + SUFFIX;
    assert (END + name + SUFFIX)[|END|..] == name + SUFFIX;
  }

  /** Objects printed under a label, as the commands do with "CERTIFICATE", "PUBLIC KEY" and
      "CERTIFICATE REQUEST": at most 48 characters of label fit, the round trip succeeds exactly
      for objects of fewer than 2033 bytes less the label, and one of 2048 bytes halts. */
  lemma LabelRoundTrip(decode: Decoder, name: string, der: seq<Byte>, writes: seq<string>)
    requires IsDecoder(decode) && |name| <= 48 && LineEditor.AllPlain(name)
    requires writes == [BEGIN + name + SUFFIX + EOL] + WithEol(DataLines(der)) + [END + name + SUFFIX + EOL]
    ensures Read(decode, LineEditor.Lines(Concat(writes)), false, []) ==
            if |der| + |name| < 2033 then Done(der) else if |der| == 2048 then Halted else Error
  {
    hide DataLines, Read, IsHeader, IsFooter, IsDecoder, WithEol, Concat, LineEditor.Lines, LineEditor.AllPlain;
    Labelled(name);
    ConsoleRoundTrip(decode, BEGIN + name + SUFFIX, END + name + SUFFIX, der, writes);
  }
}
