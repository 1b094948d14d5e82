/** Names built from tenant-supplied text: presence keys, realtime topics and quota identities.
    Text is a sequence of Unicode scalar values; `encodeURIComponent` and `JSON.stringify` are
    modelled together with the decoders that undo them. */
module Keys {
  import opened Wrappers

  // ---------------------------------------------------------------- percent-encoding

  predicate IsAlphanumeric(c: char) { 'A' <= c <= 'Z' || 'a' <= c <= 'z' || '0' <= c <= '9' }

  /** The characters `encodeURIComponent` leaves alone. */
  predicate Unreserved(c: char) {
    IsAlphanumeric(c) || c == '-' || c == '_' || c == '.' || c == '!' || c == '~' || c == '*' || c == '\''
        || c == '(' || c == ')'
  }

  type Byte = b | 0 <= b < 256

  function Utf8(c: char): (bs: seq<Byte>) {
    var v := c as int;
    if v < 0x80 then [v]
    else if v < 0x800 then [0xC0 + v / 64, 0x80 + v % 64]
    else if v < 0x1_0000 then [0xE0 + v / 4096, 0x80 + v / 64 % 64, 0x80 + v % 64]
    else [0xF0 + v / 262144, 0x80 + v / 4096 % 64, 0x80 + v / 64 % 64, 0x80 + v % 64]
  }

  function BytesOf(s: string): seq<Byte> { if s == "" then [] else Utf8(s[0]) + BytesOf(s[1..]) }

  function Digit(d: int): char
    requires 0 <= d < 16
  {
    if d < 10 then '0' + d as char else 'A' + (d - 10) as char
  }

  function Escape(b: Byte): string {
    if b < 0x80 && Unreserved(b as char) then [b as char] else ['%', Digit(b / 16), Digit(b % 16)]
  }

  function EscapeAll(bs: seq<Byte>): string { if bs == [] then "" else Escape(bs[0]) + EscapeAll(bs[1..]) }

  /** Unreserved characters stand for themselves; every byte of any other is escaped. */
  function EncodeURIComponent(s: string): string { EscapeAll(BytesOf(s)) }

  // ---------------------------------------------------------------- percent-decoding

  function Undigit(c: char): Option<int> {
    if '0' <= c <= '9' then Some(c as int - '0' as int)
    else if 'A' <= c <= 'F' then Some(c as int - 'A' as int + 10)
    else if 'a' <= c <= 'f' then Some(c as int - 'a' as int + 10)
    else None
  }

  /** The first byte and the rest of the text. */
  function Unescape(s: string): Option<(Byte, string)>
    requires s != ""
  {
    if s[0] != '%' then (if s[0] as int < 0x80 then Some((s[0] as int, s[1..])) else None)
    else if |s| < 3 || Undigit(s[1]).None? || Undigit(s[2]).None? then None
    else Some((16 * Undigit(s[1]).value + Undigit(s[2]).value, s[3..]))
  }

  function UnescapeAll(s: string): Option<seq<Byte>> {
    if s == "" then Some([])
    else if Unescape(s).None? then None
    else
      var (b, rest) := Unescape(s).value;
      match UnescapeAll(rest)
      case Some(bs) => Some([b] + bs)
      case None => None
  }

  predicate IsTail(b: Byte) { 0x80 <= b < 0xC0 }

  predicate IsScalar(v: int) { 0 <= v < 0xD800 || 0xE000 <= v < 0x11_0000 }

  function Character(v: int): Option<char> { if IsScalar(v) then Some(v as char) else None }

  function Width(b: Byte): nat { if b < 0x80 then 1 else if b < 0xE0 then 2 else if b < 0xF0 then 3 else 4 }

  function Payload(b: Byte, marker: int): int { b as int - marker }

  /** The first character of a byte sequence, which takes `Width` of its first byte. */
  function FirstChar(bs: seq<Byte>): Option<char>
    requires bs != []
  {
    if |bs| < Width(bs[0]) || (0x80 <= bs[0] < 0xC0) then None
    else if bs[0] < 0x80 then Character(bs[0])
    else if !IsTail(bs[1]) then None
    else if bs[0] < 0xE0 then Character(Payload(bs[0], 0xC0) * 64 + Payload(bs[1], 0x80))
    else if !IsTail(bs[2]) then None
    else if bs[0] < 0xF0 then Character(Payload(bs[0], 0xE0) * 4096 + Payload(bs[1], 0x80) * 64 + Payload(bs[2], 0x80))
    else if !IsTail(bs[3]) then None
    else Character(Payload(bs[0], 0xF0) * 262144 + Payload(bs[1], 0x80) * 4096 + Payload(bs[2], 0x80) * 64
        + Payload(bs[3], 0x80))
  }

  function TextOf(bs: seq<Byte>): Option<string> {
    if bs == [] then Some("")
    else if FirstChar(bs).None? || |bs| < Width(bs[0]) then None
    else
      match TextOf(bs[Width(bs[0])..])
      case Some(rest) => Some([FirstChar(bs).value] + rest)
      case None => None
  }

  function DecodeURIComponent(s: string): Option<string> {
    match UnescapeAll(s)
    case Some(bs) => TextOf(bs)
    case None => None
  }

  // ---------------------------------------------------------------- percent round trip

  lemma {:induction false} UnescapesAll(bs: seq<Byte>)
    ensures UnescapeAll(EscapeAll(bs)) == Some(bs)
  {
    if bs != [] {
      UnescapesAll(bs[1..]);
      UnescapesFirst(bs[0], EscapeAll(bs[1..]));
      assert [bs[0]] + bs[1..] == bs;
    }
  }

  lemma UnescapesFirst(b: Byte, rest: string)
    ensures Unescape(Escape(b) + rest) == Some((b, rest))
  {
    var e := Escape(b);
    assert (e + rest)[|e|..] == rest;
    if |e| == 3 {
      assert (e + rest)[1] == Digit(b / 16) && (e + rest)[2] == Digit(b % 16);
      Undigits(b / 16);
      Undigits(b % 16);
    }
  }

  lemma Undigits(d: int)
    requires 0 <= d < 16
    ensures Undigit(Digit(d)) == Some(d)
  {
  }

  lemma SplitsInto64(v: int)
    requires 0 <= v
    ensures v == v / 64 * 64 + v % 64
    ensures v == v / 4096 * 4096 + v / 64 % 64 * 64 + v % 64
    ensures v == v / 262144 * 262144 + v / 4096 % 64 * 4096 + v / 64 % 64 * 64 + v % 64
  {
    assert v / 64 / 64 == v / 4096 && v / 4096 / 64 == v / 262144;
  }

  lemma FirstCharReads(c: char, rest: seq<Byte>)
    ensures FirstChar(Utf8(c) + rest) == Some(c) && Width(Utf8(c)[0]) == |Utf8(c)|
  {
    var v, bs := c as int, Utf8(c);
    SplitsInto64(v);
    assert forall i :: 0 <= i < |bs| ==> (bs + rest)[i] == bs[i];
    assert IsScalar(v);
  }

  lemma {:induction false} TextOfReads(s: string)
    ensures TextOf(BytesOf(s)) == Some(s)
  {
    if s != "" {
      TextOfReads(s[1..]);
      FirstCharReads(s[0], BytesOf(s[1..]));
      assert (Utf8(s[0]) + BytesOf(s[1..]))[|Utf8(s[0])|..] == BytesOf(s[1..]);
      assert [s[0]] + s[1..] == s;
    }
  }

  /** Percent-decoding undoes percent-encoding, for every text. */
  lemma PercentRoundTrip(s: string)
    ensures DecodeURIComponent(EncodeURIComponent(s)) == Some(s)
  {
    UnescapesAll(BytesOf(s));
    TextOfReads(s);
  }

  lemma {:induction false} EscapedHasNoColon(bs: seq<Byte>)
    ensures ':' !in EscapeAll(bs)
  {
    if bs != [] { EscapedHasNoColon(bs[1..]); }
  }

  // ---------------------------------------------------------------- the encoding itself

  predicate LetterOrDigit(c: char) { c in "0123456789" || 'A' <= c <= 'Z' || 'a' <= c <= 'z' }

  /** A character stands for itself exactly when it is a letter, a digit or one of nine marks, and any
      other ASCII character is its code in two upper-case hexadecimal digits; texts encode piece by piece. */
  lemma AsciiEncodes(c: char)
    requires c as int <= 0x7F
    ensures EncodeURIComponent([c]) ==
        if LetterOrDigit(c) || c in "-_.!~*'()" then [c]
        else "%" + ["0123456789ABCDEF"[c as int / 16]] + ["0123456789ABCDEF"[c as int % 16]]
  {
    UpperHex(c as int / 16);
    UpperHex(c as int % 16);
    assert BytesOf([c]) == Utf8(c) + BytesOf("") == [c as int];
    assert EscapeAll([c as int]) == Escape(c as int);
  }

  lemma UpperHex(d: int)
    requires 0 <= d < 16
    ensures Digit(d) == "0123456789ABCDEF"[d]
  {
  }

  /** Every other character is escaped byte by byte, in the shortest UTF-8 form (RFC 3629, section 3). */
  lemma OthersEncode(c: char)
    requires c as int > 0x7F
    ensures |EncodeURIComponent([c])| == if c as int <= 0x7FF then 6 else if c as int <= 0xFFFF then 9 else 12
    ensures forall i :: 0 <= i < |EncodeURIComponent([c])| && i % 3 == 0 ==> EncodeURIComponent([c])[i] == '%'
  {
    assert BytesOf([c]) == Utf8(c) + BytesOf("") == Utf8(c);
    var bs := Utf8(c);
    forall i | 0 <= i < |bs| ensures bs[i] >= 0x80 && Escape(bs[i]) == ['%', Digit(bs[i] / 16), Digit(bs[i] % 16)] {
    }
    EscapedBytes(bs);
  }

  lemma {:induction false} EscapedBytes(bs: seq<Byte>)
    requires forall i :: 0 <= i < |bs| ==> bs[i] >= 0x80
    ensures |EscapeAll(bs)| == 3 * |bs|
    ensures forall i :: 0 <= i < |EscapeAll(bs)| && i % 3 == 0 ==> EscapeAll(bs)[i] == '%'
  {
    if bs != [] {
      EscapedBytes(bs[1..]);
      forall i | 3 <= i < |EscapeAll(bs)| && i % 3 == 0 ensures EscapeAll(bs)[i] == '%' {
        assert EscapeAll(bs)[i] == EscapeAll(bs[1..])[i - 3] && (i - 3) % 3 == 0;
      }
    }
  }

  lemma {:induction false} BytesJoin(s: string, t: string)
    ensures BytesOf(s + t) == BytesOf(s) + BytesOf(t)
  {
    if s == "" {
      assert s + t == t;
    } else {
      BytesJoin(s[1..], t);
      assert (s + t)[0] == s[0] && (s + t)[1..] == s[1..] + t;
    }
  }

  lemma PartsAssociate(s: string, t: string, u: string)
    ensures s + (t + u) == s + t + u
  {
  }

  lemma {:induction false} EscapesJoin(a: seq<Byte>, b: seq<Byte>)
    ensures EscapeAll(a + b) == EscapeAll(a) + EscapeAll(b)
  {
    if a == [] {
      assert a + b == b;
    } else {
      EscapesJoin(a[1..], b);
      assert (a + b)[0] == a[0] && (a + b)[1..] == a[1..] + b;
      PartsAssociate(Escape(a[0]), EscapeAll(a[1..]), EscapeAll(b));
    }
  }

  lemma TextsEncodePieceByPiece(s: string, t: string)
    ensures EncodeURIComponent(s + t) == EncodeURIComponent(s) + EncodeURIComponent(t)
  {
    BytesJoin(s, t);
    EscapesJoin(BytesOf(s), BytesOf(t));
  }

  // ---------------------------------------------------------------- presence keys

  const PREFIX := "study-room"
  const ROOM := "presence-room"
  const CONNECTION := "presence-connection"

  /** The pieces with colons between them. */
  function Join(pieces: seq<string>): string {
    if pieces == [] then "" else if |pieces| == 1 then pieces[0] else pieces[0] + ":" + Join(pieces[1..])
  }

  function RoomIndexKey(appId: string, roomId: string): string {
    Join([PREFIX, ROOM, EncodeURIComponent(appId), EncodeURIComponent(roomId)])
  }

  function ConnectionKey(appId: string, roomId: string, socketId: string): string {
    Join([PREFIX, CONNECTION, EncodeURIComponent(appId), EncodeURIComponent(roomId), EncodeURIComponent(socketId)])
  }

  /** The pieces between the colons. */
  function Split(s: string): (pieces: seq<string>)
    ensures pieces != []
  {
    if s == "" then [""]
    else
      var rest := Split(s[1..]);
      if s[0] == ':' then [""] + rest else [[s[0]] + rest[0]] + rest[1..]
  }

  lemma {:induction false} SplitsPiece(piece: string, rest: string)
    requires ':' !in piece
    ensures Split(piece + ":" + rest) == [piece] + Split(rest)
  {
    if piece == "" {
      assert piece + ":" + rest == ":" + rest && (":" + rest)[1..] == rest;
    } else {
      SplitsPiece(piece[1..], rest);
      assert (piece + ":" + rest)[1..] == piece[1..] + ":" + rest;
      assert (piece + ":" + rest)[0] == piece[0] && [piece[0]] + piece[1..] == piece;
    }
  }

  lemma {:induction false} SplitsLast(piece: string)
    requires ':' !in piece
    ensures Split(piece) == [piece]
  {
    if piece != "" {
      SplitsLast(piece[1..]);
      assert [piece[0]] + piece[1..] == piece;
    }
  }

  function Decoded(pieces: seq<string>): seq<Option<string>> {
    seq(|pieces|, i requires 0 <= i < |pieces| => DecodeURIComponent(pieces[i]))
  }

  lemma {:induction false} SplitUndoesJoin(pieces: seq<string>)
    requires pieces != [] && forall i :: 0 <= i < |pieces| ==> ':' !in pieces[i]
    ensures Split(Join(pieces)) == pieces
  {
    if |pieces| == 1 {
      SplitsLast(pieces[0]);
    } else {
      SplitUndoesJoin(pieces[1..]);
      SplitsPiece(pieces[0], Join(pieces[1..]));
    }
  }

  lemma SegmentReads(text: string)
    ensures ':' !in EncodeURIComponent(text) && DecodeURIComponent(EncodeURIComponent(text)) == Some(text)
  {
    EscapedHasNoColon(BytesOf(text));
    PercentRoundTrip(text);
  }

  /** Splitting a connection key at the colons and decoding its pieces gives back the app, the room
      and the socket. */
  lemma ConnectionKeyReads(appId: string, roomId: string, socketId: string)
    ensures var pieces := Split(ConnectionKey(appId, roomId, socketId));
      && |pieces| == 5 && pieces[0] == PREFIX && pieces[1] == CONNECTION
      && Decoded(pieces[2..]) == [Some(appId), Some(roomId), Some(socketId)]
  {
    SegmentReads(appId);
    SegmentReads(roomId);
    SegmentReads(socketId);
    SplitUndoesJoin([PREFIX, CONNECTION, EncodeURIComponent(appId), EncodeURIComponent(roomId),
        EncodeURIComponent(socketId)]);
  }

  /** Splitting a room's index key gives back the app and the room; its second piece is never that of
      a connection key. */
  lemma RoomIndexKeyReads(appId: string, roomId: string)
    ensures var pieces := Split(RoomIndexKey(appId, roomId));
      && |pieces| == 4 && pieces[0] == PREFIX && pieces[1] == ROOM && ROOM != CONNECTION
      && Decoded(pieces[2..]) == [Some(appId), Some(roomId)]
  {
    SegmentReads(appId);
    SegmentReads(roomId);
    SplitUndoesJoin([PREFIX, ROOM, EncodeURIComponent(appId), EncodeURIComponent(roomId)]);
    assert |ROOM| != |CONNECTION|;
  }

  // ---------------------------------------------------------------- JSON strings

  /** Lower-case hexadecimal, as in escaped control characters. */
  function LowDigit(d: int): char
    requires 0 <= d < 16
  {
    if d < 10 then '0' + d as char else 'a' + (d - 10) as char
  }

  function QuoteChar(c: char): string {
    if c == '\"' then ['\\', '\"']
    else if c == '\\' then ['\\', '\\']
    else if c as int == 8 then ['\\', 'b']
    else if c as int == 9 then ['\\', 't']
    else if c as int == 10 then ['\\', 'n']
    else if c as int == 12 then ['\\', 'f']
    else if c as int == 13 then ['\\', 'r']
    else if c as int < 32 then ['\\', 'u', '0', '0', LowDigit(c as int / 16), LowDigit(c as int % 16)]
    else [c]
  }

  function QuoteChars(s: string): string { if s == "" then "" else QuoteChar(s[0]) + QuoteChars(s[1..]) }

  function Quote(s: string): string { ['\"'] + QuoteChars(s) + ['\"'] }

  /** One character of a JSON string and the text after it. */
  function UnquoteChar(s: string): Option<(char, string)>
    requires s != ""
  {
    if s[0] != '\\' then Some((s[0], s[1..]))
    else if |s| < 2 then None
    else if s[1] == '\"' || s[1] == '\\' then Some((s[1], s[2..]))
    else if s[1] == 'b' then Some((8 as char, s[2..]))
    else if s[1] == 't' then Some((9 as char, s[2..]))
    else if s[1] == 'n' then Some((10 as char, s[2..]))
    else if s[1] == 'f' then Some((12 as char, s[2..]))
    else if s[1] == 'r' then Some((13 as char, s[2..]))
    else if s[1] != 'u' || |s| < 6 || s[2] != '0' || s[3] != '0' || Undigit(s[4]).None? || Undigit(s[5]).None? then None
    else Some(((16 * Undigit(s[4]).value + Undigit(s[5]).value) as char, s[6..]))
  }

  /** The characters up to the closing quote, and the text after it. */
  function Unquote(s: string): Option<(string, string)>
    decreases |s|
  {
    if s == "" then None
    else if s[0] == '\"' then Some(("", s[1..]))
    else if UnquoteChar(s).None? then None
    else
      var (c, rest) := UnquoteChar(s).value;
      match Unquote(rest)
      case Some((text, after)) => Some(([c] + text, after))
      case None => None
  }

  lemma UnquotesChar(c: char, rest: string)
    ensures UnquoteChar(QuoteChar(c) + rest) == Some((c, rest)) && (QuoteChar(c) + rest)[0] != '\"'
  {
    var q := QuoteChar(c);
    assert (q + rest)[|q|..] == rest;
    assert forall i :: 0 <= i < |q| ==> (q + rest)[i] == q[i];
  }

  /** Reading a quoted text gives it back, whatever follows. */
  lemma {:induction false} QuoteRoundTrip(s: string, after: string)
    ensures Unquote(QuoteChars(s) + ['\"'] + after) == Some((s, after))
  {
    if s == "" {
      assert QuoteChars(s) + ['\"'] + after == ['\"'] + after;
    } else {
      QuoteRoundTrip(s[1..], after);
      var rest := QuoteChars(s[1..]) + ['\"'] + after;
      assert QuoteChars(s) + ['\"'] + after == QuoteChar(s[0]) + rest;
      UnquotesChar(s[0], rest);
      assert [s[0]] + s[1..] == s;
    }
  }

  /** The seven characters with a short escape. */
  const ESCAPED: string := ['\"', '\\', 8 as char, 9 as char, 10 as char, 12 as char, 13 as char]

  /** A quoted character is a backslash and its letter if it has a short escape, its code in four
      lower-case hexadecimal digits if it is another control character, and itself otherwise. */
  lemma CharactersQuote(c: char)
    ensures forall k :: 0 <= k < 7 && c == ESCAPED[k] ==> QuoteChar(c) == "\\" + ["\"\\btnfr"[k]]
    ensures c !in ESCAPED && c as int <= 31 ==>
              QuoteChar(c) == "\\u00" + ["0123456789abcdef"[c as int / 16]] + ["0123456789abcdef"[c as int % 16]]
    ensures c !in ESCAPED && c as int > 31 ==> QuoteChar(c) == [c]
  {
    if c as int <= 31 {
      LowerHex(c as int / 16);
      LowerHex(c as int % 16);
    }
  }

  lemma LowerHex(d: int)
    requires 0 <= d < 16
    ensures LowDigit(d) == "0123456789abcdef"[d]
  {
  }

  // ---------------------------------------------------------------- topics

  function Array1(a: string): string { ['['] + Quote(a) + [']'] }

  function Array2(a: string, b: string): string { ['['] + Quote(a) + Second(b) }

  function Second(b: string): string { [','] + Quote(b) + [']'] }

  function RoomTopic(appId: string, roomId: string): string { "room:" + Array2(appId, roomId) }
  function UserTopic(appId: string, userId: string): string { "user:" + Array2(appId, userId) }
  function AppTopic(appId: string): string { "app:" + Array1(appId) }

  lemma Array2Injective(a: string, b: string, c: string, d: string)
    requires Array2(a, b) == Array2(c, d)
    ensures a == c && b == d
  {
    ReadsArray2(a, b);
    ReadsArray2(c, d);
  }

  lemma ReadsArray2(a: string, b: string)
    ensures |Array2(a, b)| > 2 && |Second(b)| > 2
    ensures Unquote(Array2(a, b)[2..]) == Some((a, Second(b)))
    ensures Unquote(Second(b)[2..]) == Some((b, [']']))
  {
    QuoteRoundTrip(a, Second(b));
    AfterTwo('[', a, Second(b));
    QuoteRoundTrip(b, [']']);
    AfterTwo(',', b, [']']);
  }

  lemma AfterTwo(c: char, a: string, rest: string)
    ensures |[c] + Quote(a) + rest| > 2 && ([c] + Quote(a) + rest)[2..] == QuoteChars(a) + ['"'] + rest
  {
  }

  /** Two different rooms never share a topic, nor do two users or two applications, and no topic of
      one family is a topic of another. */
  lemma RoomTopicsInjective(a: string, b: string, c: string, d: string)
    ensures RoomTopic(a, b) == RoomTopic(c, d) <==> a == c && b == d
    ensures UserTopic(a, b) == UserTopic(c, d) <==> a == c && b == d
  {
    if RoomTopic(a, b) == RoomTopic(c, d) {
      assert RoomTopic(a, b)[5..] == Array2(a, b) && RoomTopic(c, d)[5..] == Array2(c, d);
      Array2Injective(a, b, c, d);
    }
    if UserTopic(a, b) == UserTopic(c, d) {
      assert UserTopic(a, b)[5..] == Array2(a, b) && UserTopic(c, d)[5..] == Array2(c, d);
      Array2Injective(a, b, c, d);
    }
  }

  lemma AppTopicsInjective(a: string, c: string)
    ensures AppTopic(a) == AppTopic(c) <==> a == c
  {
    QuoteRoundTrip(a, [']']);
    QuoteRoundTrip(c, [']']);
    assert AppTopic(a)[6..] == QuoteChars(a) + ['\"'] + [']'];
    assert AppTopic(c)[6..] == QuoteChars(c) + ['\"'] + [']'];
  }

  lemma TopicFamiliesDisjoint(a: string, b: string, c: string, d: string, e: string)
    ensures RoomTopic(a, b) != UserTopic(c, d) && RoomTopic(a, b) != AppTopic(e) && UserTopic(c, d) != AppTopic(e)
  {
    assert RoomTopic(a, b)[0] == 'r' && UserTopic(c, d)[0] == 'u' && AppTopic(e)[0] == 'a';
  }

  // ---------------------------------------------------------------- quota identities

  function QuotaIdentity(appId: string, userId: string): string { appId + ":" + userId }

  predicate IsAppId(s: string) {
    1 <= |s| <= 64 && forall c :: c in s ==> IsAlphanumeric(c) || c == '.' || c == '_' || c == '-'
  }

  /** The pattern asks for 1 to 64 letters, digits, dots, underscores and hyphens. */
  lemma AppIdsExactly(s: string)
    ensures IsAppId(s) <==>
              s != "" && |s| < 65 && forall i :: 0 <= i < |s| ==> LetterOrDigit(s[i]) || s[i] in "._-"
  {
    forall c | c in s ensures exists i :: 0 <= i < |s| && s[i] == c {
    }
    assert forall i :: 0 <= i < |s| ==> s[i] in s;
    forall i | 0 <= i < |s| ensures IsAlphanumeric(s[i]) <==> LetterOrDigit(s[i]) {
    }
  }

  /** App ids of the contract's pattern hold no colon, so the identity names one tenant's user. */
  lemma QuotaIdentityInjective(a: string, u: string, b: string, v: string)
    requires IsAppId(a) && IsAppId(b)
    ensures QuotaIdentity(a, u) == QuotaIdentity(b, v) <==> a == b && u == v
  {
    if QuotaIdentity(a, u) == QuotaIdentity(b, v) {
      ColonAt(a, u, b, v);
      assert QuotaIdentity(a, u)[|a| + 1..] == u && QuotaIdentity(b, v)[|b| + 1..] == v;
      assert QuotaIdentity(a, u)[..|a|] == a && QuotaIdentity(b, v)[..|b|] == b;
    }
  }

  lemma ColonAt(a: string, u: string, b: string, v: string)
    requires IsAppId(a) && IsAppId(b) && QuotaIdentity(a, u) == QuotaIdentity(b, v)
    ensures |a| == |b|
  {
    var s, t := QuotaIdentity(a, u), QuotaIdentity(b, v);
    assert s[|a|] == ':' && t[|b|] == ':';
    assert forall i :: 0 <= i < |a| ==> s[i] == a[i] && a[i] in a;
    assert forall i :: 0 <= i < |b| ==> t[i] == b[i] && b[i] in b;
  }

  /** Without the pattern it does not: every application id with a colon shares each of its users'
      identities with a user of another application. */
  lemma EveryColonCollides(a: string, u: string, p: nat)
    requires p < |a| && a[p] == ':'
    ensures a[..p] != a && QuotaIdentity(a, u) == QuotaIdentity(a[..p], QuotaIdentity(a[p + 1..], u))
  {
    assert a == a[..p] + ":" + a[p + 1..];
  }
}
