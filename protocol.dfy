/**
 * The RELP frame codec and the messages built on frames (relp/protocol.py).
 *
 * A frame travels as "<txnr> <command> <len> <payload>\n". The module keeps
 * the three decoders of the source apart: the strict single-frame `Decode`
 * (which validates), the batch decoder `DecodedBatch` / `DecodeBatch` (which
 * reassembles a buffer and does not check the command), and the parsers of
 * the `rsp` and `open` payloads.
 */
module Protocol {
  import opened Wrappers
  import opened Errors
  import opened Text

  const VERSION: string := "0"
  const SOFTWARE: string := "python-relp"
  const COMMANDS: seq<string> := ["syslog"]

  datatype Frame = Frame(txnr: nat, command: string, message: string)

  /** `[a-zA-Z]{1,32}`, matched against the whole command. */
  predicate ValidCommand(c: string)
  {
    1 <= |c| <= 32 && forall i :: 0 <= i < |c| ==> IsAsciiLetter(c[i])
  }

  /** Four space-separated fields, as `split(' ', 3)` takes them apart. */
  function Fields(t: string, c: string, l: string, m: string): string
  {
    t + " " + c + " " + l + " " + m
  }

  /** What precedes the payload on the wire: "<txnr> <command> <len> ". */
  function Header(f: Frame): string
  {
    NatToString(f.txnr) + " " + f.command + " " + NatToString(|f.message|) + " "
  }

  /** `Frame.encode`: header, payload and the terminating newline. */
  function Encode(f: Frame): string
  {
    Header(f) + f.message + "\n"
  }

  /** `encode_frame`: the same as `Encode` but without the terminator. */
  function EncodeFrame(f: Frame): string
  {
    Header(f) + f.message
  }

  /** The frames' encodings, concatenated: a stream as a peer writes it. */
  function EncodeAll(fs: seq<Frame>): string
    decreases |fs|
  {
    if fs == [] then "" else Encode(fs[0]) + EncodeAll(fs[1..])
  }

  lemma FieldsNested(t: string, c: string, l: string, m: string)
    ensures Fields(t, c, l, m) == t + [' '] + (c + [' '] + (l + [' '] + m))
  {
  }

  lemma SplitTwoFields(l: string, m: string)
    requires ' ' !in l
    ensures SplitN(l + [' '] + m, ' ', 1) == [l, m]
  {
    SplitNAfterField(l, m, ' ', 0);
  }

  lemma SplitThreeFields(c: string, l: string, m: string)
    requires ' ' !in c && ' ' !in l
    ensures SplitN(c + [' '] + (l + [' '] + m), ' ', 2) == [c, l, m]
  {
    SplitTwoFields(l, m);
    SplitNAfterField(c, l + [' '] + m, ' ', 1);
  }

  /** The first three spaces of a four-field record separate its fields. */
  lemma SplitFields(t: string, c: string, l: string, m: string)
    requires ' ' !in t && ' ' !in c && ' ' !in l
    ensures SplitN(Fields(t, c, l, m), ' ', 3) == [t, c, l, m]
  {
    FieldsNested(t, c, l, m);
    SplitThreeFields(c, l, m);
    SplitNAfterField(t, c + [' '] + (l + [' '] + m), ' ', 2);
  }

  /**
   * The encoding's four fields are the txnr, the command, the payload's
   * character count and the payload followed by the terminator.
   */
  lemma EncodeFields(f: Frame)
    requires ' ' !in f.command
    ensures Encode(f) == Fields(NatToString(f.txnr), f.command, NatToString(|f.message|), f.message + "\n")
    ensures SplitN(Encode(f), ' ', 3)
         == [NatToString(f.txnr), f.command, NatToString(|f.message|), f.message + "\n"]
    ensures ParseNat(NatToString(f.txnr)) == Some(f.txnr)
    ensures ParseNat(NatToString(|f.message|)) == Some(|f.message|)
  {
    SplitFields(NatToString(f.txnr), f.command, NatToString(|f.message|), f.message + "\n");
    ParseNatToString(f.txnr);
    ParseNatToString(|f.message|);
  }

  // ---------------------------------------------------------------------
  // Single-frame decoding: `validate_frame` and `Frame.decode`
  // ---------------------------------------------------------------------

  /** `validate_frame`: the checks, in the order the source makes them. */
  function ValidateFrame(t: string, c: string, l: string, m: string): Outcome<Error>
  {
    if ParseNat(t).None? then Fail(BadTxnr)
    else if ParseNat(l).None? then Fail(BadLength)
    else if !ValidCommand(c) then Fail(BadCommand)
    else if ParseNat(l).value != |m| then Fail(LengthMismatch)
    else Pass
  }

  /**
   * `Frame.decode`: split into four fields, validate them (the length check
   * counts every character of the last field, newlines included), and only
   * then strip the trailing newlines from the payload.
   */
  function Decode(data: string): (r: Result<Frame, Error>)
    ensures r.Ok? ==> ValidCommand(r.value.command) && !EndsWithNewline(r.value.message)
  {
    var parts := SplitN(data, ' ', 3);
    if |parts| != 4 then Err(UnpackError)
    else match ValidateFrame(parts[0], parts[1], parts[2], parts[3])
      case Fail(e) => Err(e)
      case Pass => Ok(Frame(ParseNat(parts[0]).value, parts[1], RStripNewlines(parts[3])))
  }

  /**
   * `decode` inverts `encode_frame` exactly on the frames with a valid
   * command and a payload that does not end in a newline.
   */
  lemma DecodeEncodeFrame(f: Frame)
    ensures Decode(EncodeFrame(f)) == Ok(f) <==> ValidCommand(f.command) && !EndsWithNewline(f.message)
  {
    if ValidCommand(f.command) && !EndsWithNewline(f.message) {
      SplitFields(NatToString(f.txnr), f.command, NatToString(|f.message|), f.message);
      ParseNatToString(f.txnr);
      ParseNatToString(|f.message|);
      assert EncodeFrame(f) == Fields(NatToString(f.txnr), f.command, NatToString(|f.message|), f.message);
    }
  }

  /**
   * `decode` rejects what `encode` produces: the length is checked against
   * the payload with its terminator, so it is always one too short (or the
   * command is already invalid).
   */
  lemma DecodeEncodeFails(f: Frame)
    requires ' ' !in f.command
    ensures Decode(Encode(f)) == Err(if ValidCommand(f.command) then LengthMismatch else BadCommand)
  {
    EncodeFields(f);
  }

  /** A txnr field that is not an integer is rejected first. */
  lemma DecodeRejectsTxnr(t: string, c: string, l: string, m: string)
    requires ' ' !in t && ' ' !in c && ' ' !in l
    requires ParseNat(t).None?
    ensures Decode(Fields(t, c, l, m)) == Err(BadTxnr)
  {
    SplitFields(t, c, l, m);
  }

  /** A length field that is not an integer is rejected. */
  lemma DecodeRejectsLength(t: string, c: string, l: string, m: string)
    requires ' ' !in t && ' ' !in c && ' ' !in l
    requires ParseNat(t).Some? && ParseNat(l).None?
    ensures Decode(Fields(t, c, l, m)) == Err(BadLength)
  {
    SplitFields(t, c, l, m);
  }

  /** A command with a digit, a punctuation mark, or outside 1..32 letters is rejected. */
  lemma DecodeRejectsCommand(t: string, c: string, l: string, m: string)
    requires ' ' !in t && ' ' !in c && ' ' !in l
    requires ParseNat(t).Some? && ParseNat(l).Some? && !ValidCommand(c)
    ensures Decode(Fields(t, c, l, m)) == Err(BadCommand)
  {
    SplitFields(t, c, l, m);
  }

  /** A length field that differs from the character count of the rest is rejected. */
  lemma DecodeRejectsLengthMismatch(t: string, c: string, l: string, m: string)
    requires ' ' !in t && ' ' !in c && ' ' !in l
    requires ParseNat(t).Some? && ParseNat(l).Some? && ValidCommand(c)
    requires ParseNat(l).value != |m|
    ensures Decode(Fields(t, c, l, m)) == Err(LengthMismatch)
  {
    SplitFields(t, c, l, m);
  }

  // ---------------------------------------------------------------------
  // Batch decoding: `Frame.decode_batch`
  // ---------------------------------------------------------------------

  /** The frames decoded from a buffer and the part left for the next read. */
  datatype Batch = Batch(frames: seq<Frame>, rest: string)

  /** Frames decoded before a later step of the batch; an error discards them. */
  function Prepend(fs: seq<Frame>, r: Result<Batch, Error>): Result<Batch, Error>
  {
    match r
    case Err(e) => Err(e)
    case Ok(b) => Ok(Batch(fs + b.frames, b.rest))
  }

  /**
   * What `decode_batch` returns for a buffer: frame after frame, each cut
   * out by its length field; a payload shorter than its length stops the
   * batch and hands back the buffer from the start of that frame. The
   * command field is taken as it is.
   */
  function DecodedBatch(data: string): Result<Batch, Error>
    decreases |data|
  {
    if data == [] then Ok(Batch([], ""))
    else
      var parts := SplitN(data, ' ', 3);
      if |parts| != 4 then Err(UnpackError)
      else if ParseNat(parts[0]).None? || ParseNat(parts[2]).None? then Err(NotAnInteger)
      else
        var length := ParseNat(parts[2]).value;
        var remain := parts[3];
        if |remain| < length then Ok(Batch([], data))
        else
          var after := remain[length..];
          if after == [] then Err(IndexOutOfRange)
          else if after[0] != '\n' then Err(MissingTerminator(after[0]))
          else Prepend([Frame(ParseNat(parts[0]).value, parts[1], remain[..length])], DecodedBatch(after[1..]))
  }

  lemma PrependEmpty(r: Result<Batch, Error>)
    ensures Prepend([], r) == r
  {
    if r.Ok? {
      assert [] + r.value.frames == r.value.frames;
    }
  }

  lemma PrependPrepend(fs: seq<Frame>, gs: seq<Frame>, r: Result<Batch, Error>)
    ensures Prepend(fs, Prepend(gs, r)) == Prepend(fs + gs, r)
  {
    if r.Ok? {
      assert fs + (gs + r.value.frames) == (fs + gs) + r.value.frames;
    }
  }

  /** `Frame.decode_batch`: the `while data` loop of the source. */
  method DecodeBatch(input: string) returns (r: Result<Batch, Error>)
    ensures r == DecodedBatch(input)
  {
    var frames: seq<Frame> := [];
    var data := input;
    PrependEmpty(DecodedBatch(data));
    while data != []
      invariant DecodedBatch(input) == Prepend(frames, DecodedBatch(data))
      decreases |data|
    {
      ghost var before := frames;
      var parts := SplitN(data, ' ', 3);
      if |parts| != 4 {
        return Err(UnpackError);
      }
      var txnr := ParseNat(parts[0]);
      var length := ParseNat(parts[2]);
      if txnr.None? || length.None? {
        return Err(NotAnInteger);
      }
      var remain := parts[3];
      if |remain| >= length.value {
        data := remain;
        var message := data[..length.value];
        data := data[length.value..];
        frames := frames + [Frame(txnr.value, parts[1], message)];
      } else {
        assert frames + [] == frames;
        return Ok(Batch(frames, data));
      }
      if data == [] {
        return Err(IndexOutOfRange);
      } else if data[0] == '\n' {
        data := data[1..];
        PrependPrepend(before, [Frame(txnr.value, parts[1], remain[..length.value])], DecodedBatch(data));
      } else {
        return Err(MissingTerminator(data[0]));
      }
    }
    assert frames + [] == frames;
    return Ok(Batch(frames, ""));
  }

  lemma HeaderFields(f: Frame, x: string)
    ensures Header(f) + x == Fields(NatToString(f.txnr), f.command, NatToString(|f.message|), x)
  {
  }

  /** One step of the batch, for a buffer whose fields and terminator are in place. */
  lemma BatchStep(data: string, c: string, txnr: nat, remain: string, n: nat)
    requires data != []
    requires SplitN(data, ' ', 3) == [NatToString(txnr), c, NatToString(n), remain]
    requires ParseNat(NatToString(txnr)) == Some(txnr) && ParseNat(NatToString(n)) == Some(n)
    requires n < |remain| && remain[n] == '\n'
    ensures DecodedBatch(data) == Prepend([Frame(txnr, c, remain[..n])], DecodedBatch(remain[n + 1..]))
  {
    assert remain[n..][1..] == remain[n + 1..];
  }

  /** A step of the batch whose payload is not followed by a newline raises. */
  lemma BatchStepFails(data: string, c: string, txnr: nat, remain: string, n: nat)
    requires data != []
    requires SplitN(data, ' ', 3) == [NatToString(txnr), c, NatToString(n), remain]
    requires ParseNat(NatToString(txnr)) == Some(txnr) && ParseNat(NatToString(n)) == Some(n)
    requires n <= |remain| && (n < |remain| ==> remain[n] != '\n')
    ensures DecodedBatch(data) == if n == |remain| then Err(IndexOutOfRange) else Err(MissingTerminator(remain[n]))
  {
    if n == |remain| {
      assert remain[n..] == [];
    } else {
      assert remain[n..][0] == remain[n];
    }
  }

  /** A frame at the front of a buffer is decoded and the rest goes on. */
  lemma BatchAfterFrame(f: Frame, rest: string)
    requires ' ' !in f.command
    ensures DecodedBatch(Encode(f) + rest) == Prepend([f], DecodedBatch(rest))
  {
    var m := f.message;
    var remain := m + "\n" + rest;
    var data := Encode(f) + rest;
    assert data == Header(f) + remain;
    HeaderFields(f, remain);
    SplitFields(NatToString(f.txnr), f.command, NatToString(|m|), remain);
    ParseNatToString(f.txnr);
    ParseNatToString(|m|);
    assert remain[..|m|] == m;
    assert remain[|m| + 1..] == rest;
    BatchStep(data, f.command, f.txnr, remain, |m|);
  }

  /** One encoded frame decodes to itself, with nothing left over. */
  lemma BatchRoundTrip(f: Frame)
    requires ' ' !in f.command
    ensures DecodedBatch(Encode(f)) == Ok(Batch([f], ""))
  {
    BatchAfterFrame(f, "");
    assert Encode(f) + "" == Encode(f);
    assert [f] + [] == [f];
  }

  /** A stream of encoded frames decodes to the same frames, in order, before the rest. */
  lemma {:induction false} BatchOfStream(fs: seq<Frame>, rest: string)
    requires forall i :: 0 <= i < |fs| ==> ' ' !in fs[i].command
    ensures DecodedBatch(EncodeAll(fs) + rest) == Prepend(fs, DecodedBatch(rest))
    decreases |fs|
  {
    if fs == [] {
      assert EncodeAll(fs) + rest == rest;
      PrependEmpty(DecodedBatch(rest));
    } else {
      var x, y := Encode(fs[0]), EncodeAll(fs[1..]);
      assert EncodeAll(fs) == x + y;
      ConcatAssoc(x, y, rest);
      BatchOfStream(fs[1..], rest);
      BatchAfterFrame(fs[0], y + rest);
      PrependPrepend([fs[0]], fs[1..], DecodedBatch(rest));
      assert [fs[0]] + fs[1..] == fs;
    }
  }

  /** Encoding frames and concatenating them decodes to the same frames with an empty rest. */
  lemma BatchRoundTripMany(fs: seq<Frame>)
    requires forall i :: 0 <= i < |fs| ==> ' ' !in fs[i].command
    ensures DecodedBatch(EncodeAll(fs)) == Ok(Batch(fs, ""))
  {
    BatchOfStream(fs, "");
    assert EncodeAll(fs) + "" == EncodeAll(fs);
    assert fs + [] == fs;
  }

  /** A complete header whose declared length exceeds the characters after it. */
  predicate IsPartialFrame(p: string)
  {
    var parts := SplitN(p, ' ', 3);
    && |parts| == 4
    && ParseNat(parts[0]).Some?
    && ParseNat(parts[2]).Some?
    && |parts[3]| < ParseNat(parts[2]).value
  }

  /**
   * The partial-read rule: the frames before a partial frame are returned,
   * together with the partial frame itself, unchanged.
   */
  lemma BatchStopsOnPartial(fs: seq<Frame>, p: string)
    requires forall i :: 0 <= i < |fs| ==> ' ' !in fs[i].command
    requires IsPartialFrame(p)
    ensures DecodedBatch(EncodeAll(fs) + p) == Ok(Batch(fs, p))
  {
    BatchOfStream(fs, p);
    assert fs + [] == fs;
  }

  /** Every cut of a frame after its header and before its payload's end is partial. */
  lemma PrefixIsPartial(f: Frame, k: nat)
    requires ' ' !in f.command
    requires |Header(f)| <= k < |Header(f)| + |f.message|
    ensures IsPartialFrame(Encode(f)[..k])
  {
    var j := k - |Header(f)|;
    var m := f.message;
    assert Encode(f)[..k] == Fields(NatToString(f.txnr), f.command, NatToString(|m|), m[..j]);
    SplitFields(NatToString(f.txnr), f.command, NatToString(|m|), m[..j]);
    ParseNatToString(|m|);
  }

  /**
   * A payload followed by anything but a newline raises; the frames decoded
   * before it are lost with the exception.
   */
  lemma BatchRejectsMissingTerminator(fs: seq<Frame>, f: Frame, ch: char, rest: string)
    requires forall i :: 0 <= i < |fs| ==> ' ' !in fs[i].command
    requires ' ' !in f.command && ch != '\n'
    ensures DecodedBatch(EncodeAll(fs) + (EncodeFrame(f) + [ch] + rest)) == Err(MissingTerminator(ch))
  {
    BatchOfStream(fs, EncodeFrame(f) + [ch] + rest);
    UnterminatedFrame(f, ch, rest);
  }

  lemma UnterminatedFrame(f: Frame, ch: char, rest: string)
    requires ' ' !in f.command && ch != '\n'
    ensures DecodedBatch(EncodeFrame(f) + [ch] + rest) == Err(MissingTerminator(ch))
  {
    var m := f.message;
    var remain := m + [ch] + rest;
    var data := EncodeFrame(f) + [ch] + rest;
    assert data == Header(f) + remain;
    HeaderFields(f, remain);
    SplitFields(NatToString(f.txnr), f.command, NatToString(|m|), remain);
    ParseNatToString(f.txnr);
    ParseNatToString(|m|);
    assert remain[|m|] == ch;
    BatchStepFails(data, f.command, f.txnr, remain, |m|);
  }

  /**
   * A payload with nothing after it is not treated as partial: reading
   * the missing terminator raises an IndexError.
   */
  lemma BatchRejectsEndAfterPayload(fs: seq<Frame>, f: Frame)
    requires forall i :: 0 <= i < |fs| ==> ' ' !in fs[i].command
    requires ' ' !in f.command
    ensures DecodedBatch(EncodeAll(fs) + EncodeFrame(f)) == Err(IndexOutOfRange)
  {
    var m := f.message;
    var data := EncodeFrame(f);
    BatchOfStream(fs, data);
    HeaderFields(f, m);
    SplitFields(NatToString(f.txnr), f.command, NatToString(|m|), m);
    ParseNatToString(f.txnr);
    ParseNatToString(|m|);
    BatchStepFails(data, f.command, f.txnr, m, |m|);
  }

  /** A buffer cut inside a header does not stop cleanly: it has too few fields. */
  lemma BatchRejectsCutHeader(f: Frame, k: nat)
    requires ' ' !in f.command
    requires 0 < k < |Header(f)|
    ensures DecodedBatch(Encode(f)[..k]) == Err(UnpackError)
  {
    var t := NatToString(f.txnr);
    var c := f.command;
    var l := NatToString(|f.message|);
    var p := Encode(f)[..k];
    assert Encode(f) == t + [' '] + (c + [' '] + (l + [' '] + (f.message + "\n")));
    if k <= |t| {
      assert p == t[..k];
      SplitNNoSep(t[..k], ' ', 3);
    } else if k <= |t| + 1 + |c| {
      var c' := c[..k - |t| - 1];
      assert p == t + [' '] + c';
      SplitNAfterField(t, c', ' ', 2);
      SplitNNoSep(c', ' ', 2);
    } else {
      var l' := l[..k - |t| - 2 - |c|];
      assert p == t + [' '] + (c + [' '] + l');
      SplitNAfterField(t, c + [' '] + l', ' ', 2);
      SplitNAfterField(c, l', ' ', 1);
      SplitNNoSep(l', ' ', 1);
    }
  }

  /** What a prefix of one encoded frame decodes to: an error, or a clean stop. */
  lemma BatchOfFramePrefix(f: Frame, k: nat)
    requires ' ' !in f.command
    requires k < |Encode(f)|
    ensures DecodedBatch(Encode(f)[..k]).Err? || DecodedBatch(Encode(f)[..k]) == Ok(Batch([], Encode(f)[..k]))
  {
    var p := Encode(f)[..k];
    if k == 0 {
      assert p == [];
    } else if k < |Header(f)| {
      BatchRejectsCutHeader(f, k);
    } else if k < |Header(f)| + |f.message| {
      PrefixIsPartial(f, k);
      BatchStopsOnPartial([], p);
      assert EncodeAll([]) + p == p;
    } else {
      assert p == EncodeFrame(f);
      BatchRejectsEndAfterPayload([], f);
      assert EncodeAll([]) + p == p;
    }
  }

  lemma EncodeAllCons(f: Frame, gs: seq<Frame>)
    ensures EncodeAll([f] + gs) == Encode(f) + EncodeAll(gs)
  {
    assert ([f] + gs)[0] == f && ([f] + gs)[1..] == gs;
  }

  lemma {:induction false} EncodeAllAppend(fs: seq<Frame>, gs: seq<Frame>)
    ensures EncodeAll(fs + gs) == EncodeAll(fs) + EncodeAll(gs)
    decreases |fs|
  {
    if fs == [] {
      assert fs + gs == gs;
    } else {
      var x, y := Encode(fs[0]), EncodeAll(fs[1..]);
      EncodeAllAppend(fs[1..], gs);
      assert (fs + gs)[0] == fs[0] && (fs + gs)[1..] == fs[1..] + gs;
      assert EncodeAll(fs + gs) == x + EncodeAll(fs[1..] + gs);
      assert EncodeAll(fs) == x + y;
      ConcatAssoc(x, y, EncodeAll(gs));
    }
  }

  lemma ConcatAssoc(a: string, b: string, c: string)
    ensures a + (b + c) == (a + b) + c
  {
  }

  lemma CancelPrefix(a: string, b: string, c: string)
    requires a + b == a + c
    ensures b == c
  {
    assert b == (a + b)[|a|..];
    assert c == (a + c)[|a|..];
  }

  /** What is left after a cut, behind the consumed part, is the unconsumed part. */
  lemma RestOfCut(done: string, rest: string, left: string, whole: string, k: nat)
    requires k <= |whole| && whole == done + left && done + rest == whole[..k]
    ensures rest + whole[k..] == left
  {
    assert whole == whole[..k] + whole[k..];
    ConcatAssoc(done, rest, whole[k..]);
    CancelPrefix(done, rest + whole[k..], left);
  }

  lemma PrefixOfConcat(a: string, b: string, k: nat)
    requires k <= |a + b|
    ensures k < |a| ==> (a + b)[..k] == a[..k]
    ensures k >= |a| ==> (a + b)[..k] == a + b[..k - |a|]
  {
  }

  /** `r` decoded some leading frames of `fs` and handed back the rest of `s`. */
  predicate ConsumedPrefix(fs: seq<Frame>, r: Result<Batch, Error>, s: string)
  {
    r.Ok? ==>
      && |r.value.frames| <= |fs|
      && r.value.frames == fs[..|r.value.frames|]
      && EncodeAll(r.value.frames) + r.value.rest == s
  }

  lemma ConsumedAfterFrame(fs: seq<Frame>, r: Result<Batch, Error>, s: string)
    requires fs != []
    requires ConsumedPrefix(fs[1..], r, s)
    ensures ConsumedPrefix(fs, Prepend([fs[0]], r), Encode(fs[0]) + s)
  {
    if r.Ok? {
      var b := r.value;
      assert fs[..1 + |b.frames|] == [fs[0]] + fs[1..][..|b.frames|];
      EncodeAllCons(fs[0], b.frames);
    }
  }

  /**
   * Decoding any prefix of a stream either raises, or yields a prefix of
   * the frames and hands back exactly the characters it did not consume.
   */
  lemma {:induction false} BatchOfStreamPrefix(fs: seq<Frame>, k: nat)
    requires forall i :: 0 <= i < |fs| ==> ' ' !in fs[i].command
    requires k <= |EncodeAll(fs)|
    ensures ConsumedPrefix(fs, DecodedBatch(EncodeAll(fs)[..k]), EncodeAll(fs)[..k])
    decreases |fs|
  {
    if fs == [] {
      assert EncodeAll(fs)[..k] == [];
    } else {
      var f := fs[0];
      var tail := EncodeAll(fs[1..]);
      assert EncodeAll(fs) == Encode(f) + tail;
      PrefixOfConcat(Encode(f), tail, k);
      if k >= |Encode(f)| {
        var k' := k - |Encode(f)|;
        BatchOfStreamPrefix(fs[1..], k');
        BatchAfterFrame(f, tail[..k']);
        ConsumedAfterFrame(fs, DecodedBatch(tail[..k']), tail[..k']);
      } else {
        BatchOfFramePrefix(f, k);
        assert EncodeAll([]) == "";
        assert fs[..0] == [];
      }
    }
  }

  /**
   * Resuming after a clean stop: the handed-back rest, followed by the
   * remainder of the stream, decodes to exactly the frames not yet
   * returned. Whole and two-piece decoding thus give the same frames.
   */
  lemma BatchResumes(fs: seq<Frame>, k: nat)
    requires forall i :: 0 <= i < |fs| ==> ' ' !in fs[i].command
    requires k <= |EncodeAll(fs)|
    requires DecodedBatch(EncodeAll(fs)[..k]).Ok?
    ensures var b := DecodedBatch(EncodeAll(fs)[..k]).value;
            |b.frames| <= |fs| &&
            b.frames + fs[|b.frames|..] == fs &&
            DecodedBatch(b.rest + EncodeAll(fs)[k..]) == Ok(Batch(fs[|b.frames|..], ""))
  {
    BatchOfStreamPrefix(fs, k);
    var b := DecodedBatch(EncodeAll(fs)[..k]).value;
    var j := |b.frames|;
    assert b.frames == fs[..j];
    assert fs[..j] + fs[j..] == fs;
    ResumeRest(fs, j, k, b.rest);
    NoSpaceSuffix(fs, j);
    BatchRoundTripMany(fs[j..]);
  }

  lemma ResumeRest(fs: seq<Frame>, j: nat, k: nat, rest: string)
    requires j <= |fs| && k <= |EncodeAll(fs)|
    requires EncodeAll(fs[..j]) + rest == EncodeAll(fs)[..k]
    ensures rest + EncodeAll(fs)[k..] == EncodeAll(fs[j..])
  {
    assert fs[..j] + fs[j..] == fs;
    EncodeAllAppend(fs[..j], fs[j..]);
    RestOfCut(EncodeAll(fs[..j]), rest, EncodeAll(fs[j..]), EncodeAll(fs), k);
  }

  lemma NoSpaceSuffix(fs: seq<Frame>, j: nat)
    requires j <= |fs|
    requires forall i :: 0 <= i < |fs| ==> ' ' !in fs[i].command
    ensures forall i :: 0 <= i < |fs[j..]| ==> ' ' !in fs[j..][i].command
  {
    forall i | 0 <= i < |fs[j..]|
      ensures ' ' !in fs[j..][i].command
    {
      assert fs[j..][i] == fs[j + i];
    }
  }

  /**
   * `decode_batch` does not check the command: a frame the strict decoder
   * rejects for its command goes through the batch decoder.
   */
  lemma BatchSkipsCommandCheck(f: Frame)
    requires ' ' !in f.command && !ValidCommand(f.command)
    ensures DecodedBatch(Encode(f)) == Ok(Batch([f], ""))
    ensures Decode(EncodeFrame(f)) == Err(BadCommand)
  {
    BatchRoundTrip(f);
    SplitFields(NatToString(f.txnr), f.command, NatToString(|f.message|), f.message);
    ParseNatToString(f.txnr);
    ParseNatToString(|f.message|);
    assert EncodeFrame(f) == Fields(NatToString(f.txnr), f.command, NatToString(|f.message|), f.message);
  }

  // ---------------------------------------------------------------------
  // Acknowledgements: `RspCode`, `Ack`, `ack_frame`, `nack_frame`
  // ---------------------------------------------------------------------

  datatype RspCode = ACK | NACK
  {
    function Value(): nat
    {
      match this
      case ACK => 200
      case NACK => 500
    }
  }

  /** An `rsp` message; `code` is the integer carried on the wire. */
  datatype Ack = Ack(txnr: nat, code: nat, message: string)

  /** `Ack(txnr)`: the default acknowledgement, code 200 and message "OK". */
  function DefaultAck(txnr: nat): Ack
  {
    Ack(txnr, ACK.Value(), "OK")
  }

  /** `Ack.to_frame`: "<code> <message>" in an `rsp` frame. */
  function AckToFrame(a: Ack): Frame
  {
    Frame(a.txnr, "rsp", NatToString(a.code) + " " + a.message)
  }

  /**
   * `Ack.from_frame`: `split(' ', 2)` unpacked into exactly two fields, so a
   * message that itself holds a space yields three fields and raises.
   */
  function AckFromFrame(f: Frame): Result<Ack, Error>
  {
    var parts := SplitN(f.message, ' ', 2);
    if |parts| != 2 then Err(UnpackError)
    else match ParseNat(parts[0])
      case None => Err(NotAnInteger)
      case Some(code) => Ok(Ack(f.txnr, code, parts[1]))
  }

  /** An Ack survives `to_frame` then `from_frame` exactly when its message has no space. */
  lemma AckRoundTrip(a: Ack)
    ensures AckFromFrame(AckToFrame(a)) == Ok(a) <==> ' ' !in a.message
    ensures ' ' in a.message ==> AckFromFrame(AckToFrame(a)) == Err(UnpackError)
  {
    var c := NatToString(a.code);
    assert AckToFrame(a).message == c + [' '] + a.message;
    SplitNAfterField(c, a.message, ' ', 1);
    ParseNatToString(a.code);
    if ' ' !in a.message {
      SplitNNoSep(a.message, ' ', 1);
    } else {
      assert |SplitN(a.message, ' ', 1)| == 2;
    }
  }

  lemma NatToString200()
    ensures NatToString(200) == "200"
  {
    assert NatToString(2) == "2";
    assert NatToString(20) == "20";
  }

  lemma NatToString500()
    ensures NatToString(500) == "500"
  {
    assert NatToString(5) == "5";
    assert NatToString(50) == "50";
  }

  /** `ack_frame(txnr)`: the frame of the default Ack. */
  function AckFrame(txnr: nat): (r: Frame)
    ensures r == AckToFrame(DefaultAck(txnr))
    ensures AckFromFrame(r) == Ok(DefaultAck(txnr))
  {
    AckFrameIsDefault(txnr);
    Frame(txnr, "rsp", "200 OK")
  }

  lemma AckFrameIsDefault(txnr: nat)
    ensures Frame(txnr, "rsp", "200 OK") == AckToFrame(DefaultAck(txnr))
    ensures AckFromFrame(AckToFrame(DefaultAck(txnr))) == Ok(DefaultAck(txnr))
  {
    NatToString200();
    AckRoundTrip(DefaultAck(txnr));
  }

  /**
   * `nack_frame(txnr, message)`: the frame of a code-500 Ack, which
   * `from_frame` reads back only when the message has no space.
   */
  function NackFrame(txnr: nat, message: string): (r: Frame)
    ensures r == AckToFrame(Ack(txnr, NACK.Value(), message))
    ensures AckFromFrame(r) == Ok(Ack(txnr, 500, message)) <==> ' ' !in message
    ensures ' ' in message ==> AckFromFrame(r) == Err(UnpackError)
  {
    NatToString500();
    AckRoundTrip(Ack(txnr, 500, message));
    Frame(txnr, "rsp", "500 " + message)
  }

  // ---------------------------------------------------------------------
  // The offer: `Offer.message`, `Offer.to_frame`, `Offer.from_frame`
  // ---------------------------------------------------------------------

  /** An offer as the session builds it; `commands` is already comma-joined. */
  datatype Offer = Offer(version: string, software: string, commands: string)

  const DefaultOffer: Offer := Offer(VERSION, SOFTWARE, Join(COMMANDS, ','))

  /** An offer as `from_frame` builds it: a header may be missing. */
  datatype ReceivedOffer = ReceivedOffer(version: Option<string>, software: Option<string>, commands: seq<string>)

  function OfferLines(o: Offer): seq<string>
  {
    ["relp_version=" + o.version, "relp_software=" + o.software, "commands=" + o.commands]
  }

  /** `Offer.message`: the three `key=value` lines joined by newlines. */
  function OfferMessage(o: Offer): string
  {
    Join(OfferLines(o), '\n')
  }

  /** `Offer.to_frame` */
  function OfferToFrame(o: Offer, txnr: nat): Frame
  {
    Frame(txnr, "open", OfferMessage(o))
  }

  predicate NoNewlines(o: Offer)
  {
    '\n' !in o.version && '\n' !in o.software && '\n' !in o.commands
  }

  /** The header keys, and the facts about their characters the parser relies on. */
  lemma HeaderKeys()
    ensures "relp_version=" == "relp_version" + "=" && '=' !in "relp_version" && '\n' !in "relp_version="
    ensures "relp_software=" == "relp_software" + "=" && '=' !in "relp_software" && '\n' !in "relp_software="
    ensures "commands=" == "commands" + "=" && '=' !in "commands" && '\n' !in "commands="
    ensures "relp_version" != "relp_software" && "relp_version" != "commands" && "relp_software" != "commands"
  {
  }

  lemma JoinThree(a: string, b: string, c: string, sep: char)
    ensures Join([a, b, c], sep) == a + [sep] + b + [sep] + c
  {
    assert [a, b, c][1..] == [b, c] && [b, c][1..] == [c];
    assert Join([c], sep) == c;
    assert Join([b, c], sep) == b + [sep] + c;
  }

  lemma SplitJoinThree(a: string, b: string, c: string, sep: char)
    requires sep !in a && sep !in b && sep !in c
    ensures Split(Join([a, b, c], sep), sep) == [a, b, c]
  {
    SplitJoin([a, b, c], sep);
  }

  lemma NoSepConcat(a: string, b: string, sep: char)
    requires sep !in a && sep !in b
    ensures sep !in a + b
  {
  }

  /** The offer message is three `key=value` lines, read back by splitting on newlines. */
  lemma OfferMessageLines(o: Offer)
    requires NoNewlines(o)
    ensures OfferMessage(o) == OfferLines(o)[0] + "\n" + OfferLines(o)[1] + "\n" + OfferLines(o)[2]
    ensures Split(OfferMessage(o), '\n') == OfferLines(o)
  {
    HeaderKeys();
    NoSepConcat("relp_version=", o.version, '\n');
    NoSepConcat("relp_software=", o.software, '\n');
    NoSepConcat("commands=", o.commands, '\n');
    var ls := OfferLines(o);
    JoinThree(ls[0], ls[1], ls[2], '\n');
    SplitJoinThree(ls[0], ls[1], ls[2], '\n');
  }

  /** One `key=value` header line, split at its one `=`. */
  function HeaderLine(line: string): Result<(string, string), Error>
  {
    var kv := SplitN(line, '=', 2);
    if |kv| != 2 then Err(UnpackError) else Ok((kv[0], kv[1]))
  }

  /** The dictionary the `for` loop of `from_frame` builds; a later key wins. */
  function HeaderMap(headers: seq<string>): Result<map<string, string>, Error>
    decreases |headers|
  {
    if headers == [] then Ok(map[])
    else match HeaderMap(headers[..|headers| - 1])
      case Err(e) => Err(e)
      case Ok(m) =>
        match HeaderLine(headers[|headers| - 1])
        case Err(e) => Err(e)
        case Ok(kv) => Ok(m[kv.0 := kv.1])
  }

  /** What `Offer.from_frame` returns: the first line is skipped. */
  function DecodedOffer(f: Frame): Result<ReceivedOffer, Error>
  {
    var lines := Split(f.message, '\n');
    match HeaderMap(lines[1..])
    case Err(e) => Err(e)
    case Ok(m) =>
      if "commands" !in m then Err(MissingCommands)
      else Ok(ReceivedOffer(Get(m, "relp_version"), Get(m, "relp_software"), Split(m["commands"], ',')))
  }

  lemma {:induction false} HeaderMapErrorPersists(headers: seq<string>, i: nat)
    requires i <= |headers|
    requires HeaderMap(headers[..i]).Err?
    ensures HeaderMap(headers) == HeaderMap(headers[..i])
    decreases |headers| - i
  {
    if i < |headers| {
      assert headers[..i + 1][..i] == headers[..i];
      HeaderMapErrorPersists(headers, i + 1);
    } else {
      assert headers[..i] == headers;
    }
  }

  /** `Offer.from_frame`: the `for` loop that fills the header dictionary. */
  method OfferFromFrame(f: Frame) returns (r: Result<ReceivedOffer, Error>)
    ensures r == DecodedOffer(f)
  {
    var headerDict: map<string, string> := map[];
    var lines := Split(f.message, '\n');
    var headers := lines[1..];
    for i := 0 to |headers|
      invariant HeaderMap(headers[..i]) == Ok(headerDict)
    {
      assert headers[..i + 1][..i] == headers[..i];
      var kv := SplitN(headers[i], '=', 2);
      if |kv| != 2 {
        HeaderMapErrorPersists(headers, i + 1);
        return Err(UnpackError);
      }
      headerDict := headerDict[kv[0] := kv[1]];
    }
    assert headers[..|headers|] == headers;
    if "commands" !in headerDict {
      return Err(MissingCommands);
    }
    return Ok(ReceivedOffer(Get(headerDict, "relp_version"), Get(headerDict, "relp_software"),
                            Split(headerDict["commands"], ',')));
  }

  lemma HeaderLineOf(key: string, value: string)
    requires '=' !in key && '=' !in value
    ensures HeaderLine(key + "=" + value) == Ok((key, value))
  {
    SplitNAfterField(key, value, '=', 1);
    SplitNNoSep(value, '=', 1);
  }

  lemma HeaderMapTwo(a: string, b: string)
    requires HeaderLine(a).Ok? && HeaderLine(b).Ok?
    ensures HeaderMap([a, b]) == Ok(map[HeaderLine(a).value.0 := HeaderLine(a).value.1][HeaderLine(b).value.0 := HeaderLine(b).value.1])
  {
    assert [a, b][..1] == [a] && [a][..0] == [];
    var x := HeaderLine(a).value;
    assert HeaderMap([a]) == Ok(map[][x.0 := x.1]);
  }

  lemma HeaderMapThree(a: string, b: string, c: string)
    requires HeaderMap([a, b]).Ok? && HeaderLine(c).Ok?
    ensures HeaderMap([a, b, c]) == Ok(HeaderMap([a, b]).value[HeaderLine(c).value.0 := HeaderLine(c).value.1])
  {
    assert [a, b, c][..2] == [a, b];
  }

  /** Two well-formed header lines make a dictionary of their two pairs. */
  lemma HeadersOfTwo(k1: string, v1: string, k2: string, v2: string)
    requires '=' !in k1 && '=' !in v1 && '=' !in k2 && '=' !in v2
    ensures HeaderMap([k1 + "=" + v1, k2 + "=" + v2]) == Ok(map[k1 := v1][k2 := v2])
  {
    HeaderLineOf(k1, v1);
    HeaderLineOf(k2, v2);
    HeaderMapTwo(k1 + "=" + v1, k2 + "=" + v2);
  }

  /** Three well-formed header lines make a dictionary of their three pairs. */
  lemma HeadersOfThree(k1: string, v1: string, k2: string, v2: string, k3: string, v3: string)
    requires '=' !in k1 && '=' !in v1 && '=' !in k2 && '=' !in v2 && '=' !in k3 && '=' !in v3
    ensures HeaderMap([k1 + "=" + v1, k2 + "=" + v2, k3 + "=" + v3]) == Ok(map[k1 := v1][k2 := v2][k3 := v3])
  {
    HeadersOfTwo(k1, v1, k2, v2);
    HeaderLineOf(k3, v3);
    HeaderMapThree(k1 + "=" + v1, k2 + "=" + v2, k3 + "=" + v3);
  }

  /** The header lines of an offer, each with its key. */
  lemma OfferLinesKeyed(o: Offer)
    ensures OfferLines(o) == ["relp_version" + "=" + o.version, "relp_software" + "=" + o.software, "commands" + "=" + o.commands]
  {
    HeaderKeys();
  }

  /**
   * Decoding an encoded offer drops its first line, and with it the
   * version; the software comes back and the commands are split on commas.
   */
  lemma OfferRoundTrip(o: Offer, txnr: nat)
    requires NoNewlines(o) && '=' !in o.software && '=' !in o.commands
    ensures DecodedOffer(OfferToFrame(o, txnr))
         == Ok(ReceivedOffer(None, Some(o.software), Split(o.commands, ',')))
  {
    OfferMessageLines(o);
    OfferLinesKeyed(o);
    var ls := OfferLines(o);
    assert ls[1..] == ["relp_software" + "=" + o.software, "commands" + "=" + o.commands];
    HeaderKeys();
    HeadersOfTwo("relp_software", o.software, "commands", o.commands);
  }

  /**
   * With a placeholder line in front, as the RELP handshake lays it out,
   * all three headers come back.
   */
  lemma OfferAfterPlaceholder(o: Offer, txnr: nat, command: string, first: string)
    requires NoNewlines(o) && '\n' !in first
    requires '=' !in o.version && '=' !in o.software && '=' !in o.commands
    ensures DecodedOffer(Frame(txnr, command, first + "\n" + OfferMessage(o)))
         == Ok(ReceivedOffer(Some(o.version), Some(o.software), Split(o.commands, ',')))
  {
    PlaceholderLines(o, first);
    OfferLinesKeyed(o);
    HeaderKeys();
    HeadersOfThree("relp_version", o.version, "relp_software", o.software, "commands", o.commands);
  }

  lemma PlaceholderLines(o: Offer, first: string)
    requires NoNewlines(o) && '\n' !in first
    ensures Split(first + "\n" + OfferMessage(o), '\n')[1..] == OfferLines(o)
  {
    OfferMessageLines(o);
    SplitAfterField(first, OfferMessage(o), '\n');
    assert ([first] + OfferLines(o))[1..] == OfferLines(o);
  }

  /** A one-line payload has no headers at all, so the missing `commands` raises. */
  lemma OfferWithoutHeaders(txnr: nat, command: string, message: string)
    requires '\n' !in message
    ensures DecodedOffer(Frame(txnr, command, message)) == Err(MissingCommands)
  {
    SplitNoSep(message, '\n');
  }

  /** The session's own offer decodes to software "python-relp" and the command list ["syslog"]. */
  lemma DefaultOfferDecodes(txnr: nat)
    ensures DecodedOffer(OfferToFrame(DefaultOffer, txnr)) == Ok(ReceivedOffer(None, Some(SOFTWARE), COMMANDS))
  {
    DefaultOfferFields();
    OfferRoundTrip(DefaultOffer, txnr);
    SplitNoSep(DefaultOffer.commands, ',');
  }

  lemma NoCharInThree(a: string, b: string, c: string, sep: char, ch: char)
    requires ch != sep && ch !in a && ch !in b && ch !in c
    ensures ch !in a + [sep] + b + [sep] + c
  {
  }

  /** A character in none of the keys and none of the values is not in the message. */
  lemma NoCharInOffer(o: Offer, ch: char)
    requires ch != '\n' && ch !in "relp_version=" && ch !in "relp_software=" && ch !in "commands="
    requires ch !in o.version && ch !in o.software && ch !in o.commands
    ensures ch !in OfferMessage(o)
  {
    NoSepConcat("relp_version=", o.version, ch);
    NoSepConcat("relp_software=", o.software, ch);
    NoSepConcat("commands=", o.commands, ch);
    var ls := OfferLines(o);
    JoinThree(ls[0], ls[1], ls[2], '\n');
    NoCharInThree(ls[0], ls[1], ls[2], '\n', ch);
  }

  lemma DefaultOfferHasNoSpace()
    ensures ' ' !in OfferMessage(DefaultOffer)
  {
    DefaultOfferFields();
    assert ' ' !in "relp_version=" && ' ' !in "relp_software=" && ' ' !in "commands=";
    assert ' ' !in VERSION && ' ' !in SOFTWARE;
    NoCharInOffer(DefaultOffer, ' ');
  }

  lemma DefaultOfferFields()
    ensures DefaultOffer.commands == "syslog" && [DefaultOffer.commands] == COMMANDS
    ensures NoNewlines(DefaultOffer)
    ensures '=' !in DefaultOffer.software && '=' !in DefaultOffer.commands && ',' !in DefaultOffer.commands
    ensures ' ' !in DefaultOffer.commands
  {
    assert Join(["syslog"], ',') == "syslog";
  }
}
