/** The byte formats of the SSH agent: framed messages, length-prefixed strings,
    the identities answer, sign requests and the public part of an encrypted
    OpenSSH key (internal/sshagent/protocol.go, server.go, key.go). They follow
    section 5 of RFC 4251 and draft-miller-ssh-agent-00.

    Lengths are 32-bit on the wire, and a longer one wraps around. */
module Wire {
  import opened Text
  import opened Wrappers

  const WORD: nat := 0x1_0000_0000
  const MAX_MESSAGE: nat := 8 * 1024 * 1024

  const IDENTITIES_ANSWER: Byte := 12

  // "openssh-key-v1" and a zero byte.
  const MAGIC: Bytes := [111, 112, 101, 110, 115, 115, 104, 45, 107, 101, 121, 45, 118, 49, 0]

  // ---- Numbers and strings -----------------------------------------------------

  // Conversion to a 32-bit length.
  function Uint32(n: nat): (r: nat)
    ensures r < WORD && (n < WORD ==> r == n)
  {
    n % WORD
  }

  function EncodeUint32(v: nat): (r: Bytes)
    requires v < WORD
    ensures |r| == 4
  {
    var high, low := v / 0x1_0000, v % 0x1_0000;
    [high / 0x100, high % 0x100, low / 0x100, low % 0x100]
  }

  function BigEndian(b: Bytes): (v: nat)
    requires |b| == 4
    ensures v < WORD
  {
    var high: nat, low: nat := 0x100 * b[0] as int + b[1], 0x100 * b[2] as int + b[3];
    0x1_0000 * high + low
  }

  function DecodeUint32(data: Bytes): Option<(nat, Bytes)> {
    if |data| < 4 then None else Some((BigEndian(data[..4]), data[4..]))
  }

  lemma Uint32RoundTrip(v: nat)
    requires v < WORD
    ensures BigEndian(EncodeUint32(v)) == v
    ensures var b := EncodeUint32(v); v == 16777216 * b[0] as int + 65536 * b[1] as int + 256 * b[2] as int + b[3]
  {
  }

  lemma BigEndianRoundTrip(b: Bytes)
    requires |b| == 4
    ensures EncodeUint32(BigEndian(b)) == b
  {
    assert BigEndian(b) / 0x1_0000 == 0x100 * b[0] as int + b[1];
  }

  // What encodeString appends to its buffer.
  function Prefixed(s: Bytes): (r: Bytes)
    ensures |r| == 4 + |s|
  {
    EncodeUint32(Uint32(|s|)) + s
  }

  // decodeString: the length left is compared after conversion to uint32.
  function DecodeString(data: Bytes): Option<(Bytes, Bytes)> {
    if |data| < 4 then None
    else
      var length, body := BigEndian(data[..4]), data[4..];
      if Uint32(|body|) < length then None else Some((body[..length], body[length..]))
  }

  // readSSHStringFrom: the same with 64-bit lengths.
  function ReadSshString(data: Bytes): Option<(Bytes, Bytes)> {
    if |data| < 4 then None
    else
      var length, body := BigEndian(data[..4]), data[4..];
      if |body| < length then None else Some((body[..length], body[length..]))
  }

  /** readSSHStringFrom succeeds on exactly the length-prefixed strings. */
  lemma ReadSshStringIff(data: Bytes, s: Bytes, rest: Bytes)
    ensures ReadSshString(data) == Some((s, rest)) <==> |s| < WORD && data == Prefixed(s) + rest
  {
    if |s| < WORD && data == Prefixed(s) + rest {
      assert data[..4] == EncodeUint32(|s|) && data[4..] == s + rest;
      Uint32RoundTrip(|s|);
    }
    if ReadSshString(data) == Some((s, rest)) {
      BigEndianRoundTrip(data[..4]);
      assert data == data[..4] + data[4..];
    }
  }

  /** decodeString accepts the same strings unless 4 GiB or more follow the length
      and what is left of that number in 32 bits is too small. */
  lemma DecodeStringIff(data: Bytes, s: Bytes, rest: Bytes)
    ensures DecodeString(data) == Some((s, rest)) <==>
              |s| < WORD && data == Prefixed(s) + rest && |s| <= Uint32(|s| + |rest|)
    ensures |data| < WORD ==> DecodeString(data) == ReadSshString(data)
  {
    ReadSshStringIff(data, s, rest);
  }

  lemma DecodesPrefixed(s: Bytes, rest: Bytes)
    requires 4 + |s| + |rest| < WORD
    ensures DecodeString(Prefixed(s) + rest) == Some((s, rest))
  {
    DecodeStringIff(Prefixed(s) + rest, s, rest);
  }

  // ---- Framed messages -------------------------------------------------------------

  // A connection, as the bytes not yet read from it.
  class Stream {
    var data: Bytes

    constructor (data: Bytes)
      ensures this.data == data
    {
      this.data := data;
    }

    // io.ReadFull: a short read consumes what there is.
    method ReadFull(n: nat) returns (b: Option<Bytes>)
      modifies this
      ensures b == (if |old(data)| < n then None else Some(old(data)[..n]))
      ensures data == if |old(data)| < n then [] else old(data)[n..]
    {
      if |data| < n {
        b, data := None, [];
      } else {
        b, data := Some(data[..n]), data[n..];
      }
    }

    method Write(b: Bytes)
      modifies this
      ensures data == old(data) + b
    {
      data := data + b;
    }
  }

  predicate Sendable(msg: Bytes) {
    1 <= |msg| <= 8388608
  }

  // A message at the front of the stream, and what follows it.
  ghost predicate Framed(data: Bytes, msg: Bytes, rest: Bytes) {
    Sendable(msg) && data == Prefixed(msg) + rest
  }

  method ReadMessage(r: Stream) returns (msg: Option<Bytes>)
    modifies r
    ensures (msg, r.data) == FirstMessage(old(r.data))
  {
    var hdr := r.ReadFull(4);
    if hdr.None? {
      return None;
    }
    var length := BigEndian(hdr.value);
    if length > MAX_MESSAGE {
      return None;
    }
    if length == 0 {
      return None;
    }
    msg := r.ReadFull(length);
  }

  // What readMessage returns and leaves in the stream.
  function FirstMessage(data: Bytes): (Option<Bytes>, Bytes) {
    if |data| < 4 then (None, [])
    else
      var length, body := BigEndian(data[..4]), data[4..];
      if length > MAX_MESSAGE || length == 0 then (None, body)
      else if |body| < length then (None, [])
      else (Some(body[..length]), body[length..])
  }

  lemma FirstMessageIff(data: Bytes, msg: Bytes, rest: Bytes)
    ensures FirstMessage(data) == (Some(msg), rest) <==> Framed(data, msg, rest)
  {
    ReadSshStringIff(data, msg, rest);
  }

  method WriteMessage(w: Stream, msg: Bytes)
    modifies w
    ensures w.data == old(w.data) + Prefixed(msg)
  {
    w.Write(EncodeUint32(Uint32(|msg|)));
    w.Write(msg);
  }

  function Strings(ss: seq<Bytes>): Bytes {
    if ss == [] then [] else Prefixed(ss[0]) + Strings(ss[1..])
  }

  // n calls of readMessage in a row; None if one of them fails.
  function Messages(data: Bytes, n: nat): Option<(seq<Bytes>, Bytes)> {
    if n == 0 then Some(([], data))
    else
      match FirstMessage(data)
      case (None, _) => None
      case (Some(msg), rest) =>
        match Messages(rest, n - 1)
        case None => None
        case Some((msgs, left)) => Some(([msg] + msgs, left))
  }

  /** Messages written back to back are read back as the same messages iff each
      of them has between 1 byte and 8 MiB, whatever follows them. */
  lemma {:induction false} MessagesRoundTripIff(msgs: seq<Bytes>, tail: Bytes)
    ensures Messages(Strings(msgs) + tail, |msgs|) == Some((msgs, tail)) <==> forall m | m in msgs :: Sendable(m)
  {
    hide EncodeUint32, BigEndian, Uint32, FirstMessage;
    if msgs == [] {
      assert Strings(msgs) + tail == tail;
    } else {
      var first, more := msgs[0], msgs[1..];
      var data, rest := Strings(msgs) + tail, Strings(more) + tail;
      assert data == Prefixed(first) + rest;
      FirstMessageIff(data, first, rest);
      MessagesRoundTripIff(more, tail);
      assert msgs == [first] + more;
      var (read, left) := FirstMessage(data);
      if read.Some? && Messages(left, |more|).Some? {
        var next := Messages(left, |more|).value.0;
        assert ([read.value] + next)[0] == read.value && ([read.value] + next)[1..] == next;
      }
      if read == Some(first) {
        FirstMessageIff(data, first, left);
        assert data[|Prefixed(first)|..] == left && data[|Prefixed(first)|..] == rest;
      }
    }
  }

  // ---- The identities answer ---------------------------------------------------------

  function FirstOr(comments: seq<Bytes>): Bytes {
    if comments == [] then [] else comments[0]
  }

  function Tail(comments: seq<Bytes>): seq<Bytes> {
    if comments == [] then [] else comments[1..]
  }

  function Pairs(blobs: seq<Bytes>, comments: seq<Bytes>): Bytes {
    if blobs == [] then []
    else Prefixed(blobs[0]) + (Prefixed(FirstOr(comments)) + Pairs(blobs[1..], Tail(comments)))
  }

  function Answer(blobs: seq<Bytes>, comments: seq<Bytes>): Bytes {
    [IDENTITIES_ANSWER] + (EncodeUint32(Uint32(|blobs|)) + Pairs(blobs, comments))
  }

  method EncodeIdentitiesAnswer(blobs: seq<Bytes>, comments: seq<Bytes>) returns (buf: Bytes)
    ensures buf == Answer(blobs, comments)
  {
    buf := [IDENTITIES_ANSWER];
    buf := buf + EncodeUint32(Uint32(|blobs|));
    ghost var left := comments;
    assert buf + Pairs(blobs, left) == Answer(blobs, comments);
    for i := 0 to |blobs|
      invariant left == if i < |comments| then comments[i..] else []
      invariant buf + Pairs(blobs[i..], left) == Answer(blobs, comments)
    {
      PairsStep(buf, blobs[i..], left);
      buf := buf + Prefixed(blobs[i]);
      var comment := [];
      if i < |comments| {
        comment := comments[i];
      }
      buf := buf + Prefixed(comment);
      assert blobs[i..][1..] == blobs[i + 1..];
      left := Tail(left);
    }
  }

  lemma PairsStep(buf: Bytes, blobs: seq<Bytes>, comments: seq<Bytes>)
    requires blobs != []
    ensures buf + Pairs(blobs, comments)
            == buf + Prefixed(blobs[0]) + Prefixed(FirstOr(comments)) + Pairs(blobs[1..], Tail(comments))
  {
    var a, b, c := Prefixed(blobs[0]), Prefixed(FirstOr(comments)), Pairs(blobs[1..], Tail(comments));
    assert buf + (a + (b + c)) == buf + a + b + c;
  }

  // Blobs and comments by turns.
  function ByTurns(blobs: seq<Bytes>, comments: seq<Bytes>): (r: seq<Bytes>)
    ensures |r| == 2 * |blobs|
  {
    seq(2 * |blobs|, k requires 0 <= k < 2 * |blobs| =>
          if k % 2 == 0 then blobs[k / 2] else if k / 2 < |comments| then comments[k / 2] else [])
  }

  lemma TurnsStep(blobs: seq<Bytes>, comments: seq<Bytes>)
    requires blobs != []
    ensures ByTurns(blobs, comments) == [blobs[0], FirstOr(comments)] + ByTurns(blobs[1..], Tail(comments))
  {
    var all, rest := ByTurns(blobs, comments), ByTurns(blobs[1..], Tail(comments));
    forall k | 2 <= k < |all|
      ensures all[k] == rest[k - 2]
    {
      assert (k - 2) / 2 == k / 2 - 1 && (k - 2) % 2 == k % 2;
    }
  }

  lemma {:induction false} PairsAreStrings(blobs: seq<Bytes>, comments: seq<Bytes>)
    ensures Pairs(blobs, comments) == Strings(ByTurns(blobs, comments))
  {
    if blobs != [] {
      hide ByTurns;
      PairsAreStrings(blobs[1..], Tail(comments));
      TurnsStep(blobs, comments);
      var rest := ByTurns(blobs[1..], Tail(comments));
      var all := [blobs[0], FirstOr(comments)] + rest;
      assert all[1..] == [FirstOr(comments)] + rest && all[1..][1..] == rest;
    }
  }

  /** An answer is the byte 12, the number of blobs, and then each blob followed by its
      comment, all as length-prefixed strings. */
  lemma AnswerLayout(blobs: seq<Bytes>, comments: seq<Bytes>)
    requires |blobs| < WORD
    ensures Answer(blobs, comments) == [12] + (EncodeUint32(|blobs|) + Strings(ByTurns(blobs, comments)))
  {
    PairsAreStrings(blobs, comments);
  }

  // A client reading one identity with decodeString, then n of them.
  function DecodePair(data: Bytes): Option<((Bytes, Bytes), Bytes)> {
    match DecodeString(data)
    case None => None
    case Some((blob, rest)) =>
      match DecodeString(rest)
      case None => None
      case Some((comment, left)) => Some(((blob, comment), left))
  }

  function DecodePairs(data: Bytes, n: nat): Option<(seq<(Bytes, Bytes)>, Bytes)> {
    if n == 0 then Some(([], data))
    else
      match DecodePair(data)
      case None => None
      case Some((pair, rest)) =>
        match DecodePairs(rest, n - 1)
        case None => None
        case Some((pairs, left)) => Some(([pair] + pairs, left))
  }

  function DecodeIdentities(data: Bytes): Option<(seq<(Bytes, Bytes)>, Bytes)> {
    match DecodeUint32(data)
    case None => None
    case Some((n, rest)) => DecodePairs(rest, n)
  }

  function DecodeIdentitiesAnswer(data: Bytes): Option<seq<(Bytes, Bytes)>> {
    if data == [] || data[0] != IDENTITIES_ANSWER then None
    else
      match DecodeIdentities(data[1..])
      case None => None
      case Some((pairs, left)) => if left == [] then Some(pairs) else None
  }

  // The identities an answer is meant to list: a missing comment is empty, a
  // surplus one is dropped.
  function Listed(blobs: seq<Bytes>, comments: seq<Bytes>): (r: seq<(Bytes, Bytes)>)
    ensures |r| == |blobs|
  {
    seq(|blobs|, i requires 0 <= i < |blobs| => (blobs[i], if i < |comments| then comments[i] else []))
  }

  lemma DecodesPair(blob: Bytes, comment: Bytes, rest: Bytes)
    requires 8 + |blob| + |comment| + |rest| < WORD
    ensures DecodePair(Prefixed(blob) + (Prefixed(comment) + rest)) == Some(((blob, comment), rest))
  {
    DecodesPrefixed(blob, Prefixed(comment) + rest);
    DecodesPrefixed(comment, rest);
  }

  lemma {:induction false} PairsRoundTrip(blobs: seq<Bytes>, comments: seq<Bytes>)
    requires |Pairs(blobs, comments)| < WORD
    ensures DecodePairs(Pairs(blobs, comments), |blobs|) == Some((Listed(blobs, comments), []))
    ensures |blobs| <= |Pairs(blobs, comments)|
  {
    hide EncodeUint32, BigEndian, Uint32, DecodePair;
    if blobs != [] {
      DecodesPair(blobs[0], FirstOr(comments), Pairs(blobs[1..], Tail(comments)));
      PairsRoundTrip(blobs[1..], Tail(comments));
      assert Listed(blobs, comments) == [(blobs[0], FirstOr(comments))] + Listed(blobs[1..], Tail(comments));
    }
  }

  lemma DecodesUint32(v: nat, rest: Bytes)
    requires v < WORD
    ensures DecodeUint32(EncodeUint32(v) + rest) == Some((v, rest))
  {
    Uint32RoundTrip(v);
    assert (EncodeUint32(v) + rest)[..4] == EncodeUint32(v);
  }

  lemma IdentitiesRoundTrip(blobs: seq<Bytes>, comments: seq<Bytes>)
    requires |Pairs(blobs, comments)| < WORD
    ensures DecodeIdentities(EncodeUint32(Uint32(|blobs|)) + Pairs(blobs, comments))
            == Some((Listed(blobs, comments), []))
  {
    PairsRoundTrip(blobs, comments);
    CountRoundTrip(|blobs|, Pairs(blobs, comments));
  }

  lemma CountRoundTrip(n: nat, body: Bytes)
    requires n < WORD
    ensures DecodeIdentities(EncodeUint32(Uint32(n)) + body) == DecodePairs(body, n)
  {
    DecodesUint32(n, body);
  }

  /** Repeated decodeString on an identities answer recovers the count, the blobs
      and the comments, and consumes the answer. */
  lemma AnswerRoundTrip(blobs: seq<Bytes>, comments: seq<Bytes>)
    requires |Answer(blobs, comments)| < WORD
    ensures DecodeIdentitiesAnswer(Answer(blobs, comments)) == Some(Listed(blobs, comments))
  {
    var rest := EncodeUint32(Uint32(|blobs|)) + Pairs(blobs, comments);
    assert Answer(blobs, comments)[1..] == rest;
    IdentitiesRoundTrip(blobs, comments);
  }

  // ---- Sign requests --------------------------------------------------------------------

  datatype SignRequest = SignRequest(blob: Bytes, data: Bytes, flags: nat)

  // No bytes, or exactly four of them.
  ghost predicate IsFlags(b: Bytes, flags: nat) {
    flags < WORD && (b == EncodeUint32(flags) || (b == [] && flags == 0))
  }

  // Two strings and the flags.
  ghost predicate IsSignRequest(payload: Bytes, req: SignRequest) {
    && |req.blob| < WORD && |req.data| < WORD
    && exists b :: IsFlags(b, req.flags) && payload == Prefixed(req.blob) + (Prefixed(req.data) + b)
  }

  function ParseFlags(b: Bytes): Option<nat> {
    if b == [] then Some(0)
    else
      match DecodeUint32(b)
      case None => None
      case Some((flags, left)) => if left == [] then Some(flags) else None
  }

  function ParseSignRequest(payload: Bytes): Option<SignRequest> {
    match DecodeString(payload)
    case None => None
    case Some((blob, rest)) =>
      match DecodeString(rest)
      case None => None
      case Some((data, left)) =>
        match ParseFlags(left)
        case None => None
        case Some(flags) => Some(SignRequest(blob, data, flags))
  }

  lemma ParseFlagsIff(b: Bytes, flags: nat)
    ensures ParseFlags(b) == Some(flags) <==> IsFlags(b, flags)
  {
    if b != [] && ParseFlags(b) == Some(flags) {
      BigEndianRoundTrip(b[..4]);
      assert b == b[..4] + b[4..];
    }
    if IsFlags(b, flags) && b != [] {
      DecodesUint32(flags, []);
      assert b == EncodeUint32(flags) + [];
    }
  }

  lemma ParsedIsSignRequest(payload: Bytes, req: SignRequest)
    requires ParseSignRequest(payload) == Some(req)
    ensures IsSignRequest(payload, req)
  {
    var rest := DecodeString(payload).value.1;
    var left := DecodeString(rest).value.1;
    DecodeStringIff(payload, req.blob, rest);
    DecodeStringIff(rest, req.data, left);
    ParseFlagsIff(left, req.flags);
  }

  /** A sign payload parses iff it has exactly its format. Payloads are part of a
      message, so they are far below 4 GiB; what parses has the format at any length. */
  lemma ParseSignRequestIff(payload: Bytes, req: SignRequest)
    ensures ParseSignRequest(payload) == Some(req) ==> IsSignRequest(payload, req)
    ensures |payload| < WORD ==> (ParseSignRequest(payload) == Some(req) <==> IsSignRequest(payload, req))
  {
    if ParseSignRequest(payload) == Some(req) {
      ParsedIsSignRequest(payload, req);
    } else if |payload| < WORD && IsSignRequest(payload, req) {
      var b :| IsFlags(b, req.flags) && payload == Prefixed(req.blob) + (Prefixed(req.data) + b);
      DecodesPrefixed(req.blob, Prefixed(req.data) + b);
      DecodesPrefixed(req.data, b);
      ParseFlagsIff(b, req.flags);
    }
  }

  datatype Algorithm = Default | RsaSha256 | RsaSha512

  // The flags are bits: 1 is reserved, 2 and 4 choose an RSA hash.
  function SignatureAlgorithm(flags: nat): (r: Option<Algorithm>)
    ensures r.Some? <==> flags in {0, 2, 4}
    ensures r.Some? ==> flags == match r.value { case Default => 0 case RsaSha256 => 2 case RsaSha512 => 4 }
  {
    if flags % 2 == 1 then None
    else
      var rsa256, rsa512 := flags / 2 % 2 == 1, flags / 4 % 2 == 1;
      if rsa256 && rsa512 then None
      else if flags / 8 != 0 then None
      else if rsa256 then Some(RsaSha256)
      else if rsa512 then Some(RsaSha512)
      else Some(Default)
  }

  // ---- The public part of an encrypted key ------------------------------------------------

  // The magic, three strings, four bytes, the public blob, and anything after it.
  ghost predicate IsKeyFile(raw: Bytes, skipped: seq<Bytes>, count: Bytes, blob: Bytes, tail: Bytes) {
    && |skipped| == 3 && |count| == 4 && |blob| < WORD && (forall s | s in skipped :: |s| < WORD)
    && raw == MAGIC + (Strings(skipped) + (count + (Prefixed(blob) + tail)))
  }

  // The file has exactly this format, with this blob in its place.
  ghost predicate HoldsBlob(raw: Bytes, blob: Bytes) {
    exists skipped, count, tail :: IsKeyFile(raw, skipped, count, blob, tail)
  }

  function Skip(data: Bytes, n: nat): Option<Bytes> {
    if n == 0 then Some(data)
    else
      match ReadSshString(data)
      case None => None
      case Some((_, rest)) => Skip(rest, n - 1)
  }

  lemma {:induction false} SkipsStrings(data: Bytes, n: nat) returns (ss: seq<Bytes>)
    requires Skip(data, n).Some?
    ensures |ss| == n && (forall s | s in ss :: |s| < WORD) && data == Strings(ss) + Skip(data, n).value
    decreases n
  {
    hide EncodeUint32, BigEndian, Uint32, ReadSshString;
    ss := [];
    if n > 0 {
      var (s, rest) := ReadSshString(data).value;
      ReadSshStringIff(data, s, rest);
      var more := SkipsStrings(rest, n - 1);
      ss := [s] + more;
      assert ss[1..] == more;
    }
  }

  lemma {:induction false} SkipAll(ss: seq<Bytes>, rest: Bytes)
    requires forall s | s in ss :: |s| < WORD
    ensures Skip(Strings(ss) + rest, |ss|) == Some(rest)
  {
    if ss != [] {
      assert Strings(ss) + rest == Prefixed(ss[0]) + (Strings(ss[1..]) + rest);
      ReadSshStringIff(Strings(ss) + rest, ss[0], Strings(ss[1..]) + rest);
      SkipAll(ss[1..], rest);
    } else {
      assert Strings(ss) + rest == rest;
    }
  }

  function PublicBlob(raw: Bytes): Option<Bytes> {
    if !(MAGIC <= raw) then None
    else
      match Skip(raw[|MAGIC|..], 3)
      case None => None
      case Some(rest) =>
        if |rest| < 4 then None
        else
          match ReadSshString(rest[4..])
          case None => None
          case Some((blob, _)) => Some(blob)
  }

  /** The extractor finds a blob iff the bytes have exactly the format, and then
      the blob in that place. */
  lemma PublicBlobIff(raw: Bytes, blob: Bytes)
    ensures PublicBlob(raw) == Some(blob) <==> HoldsBlob(raw, blob)
  {
    if PublicBlob(raw) == Some(blob) {
      var data := raw[|MAGIC|..];
      var skipped := SkipsStrings(data, 3);
      var rest := Skip(data, 3).value;
      var tail := ReadSshString(rest[4..]).value.1;
      ReadSshStringIff(rest[4..], blob, tail);
      assert raw == MAGIC + data && rest == rest[..4] + rest[4..];
      assert IsKeyFile(raw, skipped, rest[..4], blob, tail);
    }
    if skipped, count, tail :| IsKeyFile(raw, skipped, count, blob, tail) {
      var rest := count + (Prefixed(blob) + tail);
      assert raw[|MAGIC|..] == Strings(skipped) + rest && rest[4..] == Prefixed(blob) + tail;
      SkipAll(skipped, rest);
      ReadSshStringIff(rest[4..], blob, tail);
    }
  }

  method ExtractPublicBlob(raw: Bytes) returns (blob: Option<Bytes>)
    ensures forall b :: blob == Some(b) <==> HoldsBlob(raw, b)
  {
    hide HoldsBlob;
    forall b ensures PublicBlob(raw) == Some(b) <==> HoldsBlob(raw, b) {
      PublicBlobIff(raw, b);
    }
    hide EncodeUint32, BigEndian, Uint32, Prefixed;
    if !(MAGIC <= raw) {
      return None;
    }
    var pos := |MAGIC|;
    for i := 0 to 3
      invariant |MAGIC| <= pos <= |raw|
      invariant Skip(raw[|MAGIC|..], 3) == Skip(raw[pos..], 3 - i)
    {
      var read := ReadSshString(raw[pos..]);
      if read.None? {
        return None;
      }
      var rest := read.value.1;
      pos := |raw| - |rest|;
      assert raw[pos..] == rest;
    }
    if |raw| - pos < 4 {
      return None;
    }
    assert raw[pos..][4..] == raw[pos + 4..];
    pos := pos + 4;
    var read := ReadSshString(raw[pos..]);
    blob := if read.None? then None else Some(read.value.0);
  }
}
