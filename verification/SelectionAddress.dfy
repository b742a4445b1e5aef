/**
 * The selection address of a discussion's deep link: a JSON Pointer (RFC 6901) inside percent-encoded
 * parts (RFC 3986), and how everything is read back out of it.
 */
module SelectionAddress {
  import opened Text
  import opened Wrappers
  import opened Sequences
  import Utf8

  // ------------------------------------------------------------------ JSON Pointer

  /** `s` with every `c` replaced by `r`. */
  function ReplaceAll(s: string, c: char, r: string): string {
    if s == "" then "" else (if s[0] == c then r else [s[0]]) + ReplaceAll(s[1..], c, r)
  }

  /** `~` becomes `~0`, then `/` becomes `~1`. */
  function Escape(token: string): string {
    ReplaceAll(ReplaceAll(token, '~', "~0"), '/', "~1")
  }

  function EscapeAll(tokens: seq<string>): (parts: seq<string>)
    ensures |parts| == |tokens|
    ensures forall i :: 0 <= i < |tokens| ==> parts[i] == Escape(tokens[i])
  {
    seq(|tokens|, i requires 0 <= i < |tokens| => Escape(tokens[i]))
  }

  function BuildPointer(tokens: seq<string>): string {
    if |tokens| == 0 then "" else "/" + Join(EscapeAll(tokens), "/")
  }

  /** `s` with every `a` followed by `b` replaced by `r`. */
  function ReplacePair(s: string, a: char, b: char, r: char): string {
    if s == "" then ""
    else if |s| >= 2 && s[0] == a && s[1] == b then [r] + ReplacePair(s[2..], a, b, r)
    else [s[0]] + ReplacePair(s[1..], a, b, r)
  }

  /** Section 4 of RFC 6901: first `~1` becomes `/`, then `~0` becomes `~`. */
  function Unescape(part: string): string {
    ReplacePair(ReplacePair(part, '~', '1', '/'), '~', '0', '~')
  }

  function UnescapeAll(parts: seq<string>): (tokens: seq<string>)
    ensures |tokens| == |parts|
    ensures forall i :: 0 <= i < |parts| ==> tokens[i] == Unescape(parts[i])
  {
    seq(|parts|, i requires 0 <= i < |parts| => Unescape(parts[i]))
  }

  /** The reference tokens of a pointer. */
  function ReadPointer(pointer: string): Option<seq<string>> {
    if pointer == "" then Some([])
    else if pointer[0] != '/' then None
    else
      Some(UnescapeAll(Split(pointer[1..], '/')))
  }

  lemma {:induction false} ReplaceAllConcat(s: string, t: string, c: char, r: string)
    ensures ReplaceAll(s + t, c, r) == ReplaceAll(s, c, r) + ReplaceAll(t, c, r)
  {
    if s == "" {
      assert s + t == t;
    } else {
      assert (s + t)[1..] == s[1..] + t;
      ReplaceAllConcat(s[1..], t, c, r);
    }
  }

  function EscapeChar(c: char): string {
    if c == '~' then "~0" else if c == '/' then "~1" else [c]
  }

  lemma EscapeCons(t: string)
    requires t != ""
    ensures Escape(t) == EscapeChar(t[0]) + Escape(t[1..])
  {
    var head := if t[0] == '~' then "~0" else [t[0]];
    ReplaceAllConcat(head, ReplaceAll(t[1..], '~', "~0"), '/', "~1");
    assert "~0"[1..] == "0" && "0"[1..] == "";
    assert head != "~0" ==> head[1..] == "";
  }

  lemma PairNext(c: char, s: string, b: char, r: char)
    requires !(c == '~' && s != "" && s[0] == b)
    ensures ReplacePair([c] + s, '~', b, r) == [c] + ReplacePair(s, '~', b, r)
  {
    assert ([c] + s)[1..] == s;
  }

  lemma PairHit(s: string, b: char, r: char)
    ensures ReplacePair(['~', b] + s, '~', b, r) == [r] + ReplacePair(s, '~', b, r)
  {
    assert (['~', b] + s)[2..] == s;
  }

  lemma {:induction false} UnescapeSlashes(t: string)
    ensures ReplacePair(Escape(t), '~', '1', '/') == ReplaceAll(t, '~', "~0")
  {
    hide Escape;
    if t == "" {
      EscapeNothing();
    } else {
      EscapeCons(t);
      UnescapeSlashes(t[1..]);
      var rest := Escape(t[1..]);
      if t[0] == '~' {
        assert "~0" + rest == ['~'] + (['0'] + rest);
        PairNext('~', ['0'] + rest, '1', '/');
        PairNext('0', rest, '1', '/');
      } else if t[0] == '/' {
        assert "~1" + rest == ['~', '1'] + rest;
        PairHit(rest, '1', '/');
      } else {
        PairNext(t[0], rest, '1', '/');
      }
    }
  }

  lemma EscapeNothing()
    ensures Escape("") == ""
  {}

  lemma {:induction false} UnescapeTildes(t: string)
    ensures ReplacePair(ReplaceAll(t, '~', "~0"), '~', '0', '~') == t
  {
    if t != "" {
      UnescapeTildes(t[1..]);
      var rest := ReplaceAll(t[1..], '~', "~0");
      if t[0] == '~' {
        assert "~0" + rest == ['~', '0'] + rest;
        PairHit(rest, '0', '~');
      } else {
        PairNext(t[0], rest, '0', '~');
      }
      assert t == [t[0]] + t[1..];
    }
  }

  /** Decoding a token undoes encoding it, whatever `~` and `/` it holds. */
  lemma UnescapeEscape(t: string)
    ensures Unescape(Escape(t)) == t
  {
    UnescapeSlashes(t);
    UnescapeTildes(t);
  }

  lemma {:induction false} EscapeFree(t: string)
    ensures Free(Escape(t), '/')
  {
    hide Escape;
    if t == "" {
      EscapeNothing();
    } else {
      EscapeCons(t);
      EscapeFree(t[1..]);
    }
  }

  /** The tokens of a built pointer are read back exactly, the empty list and empty tokens included. */
  lemma ReadBuiltPointer(tokens: seq<string>)
    ensures ReadPointer(BuildPointer(tokens)) == Some(tokens)
  {
    hide Escape, Unescape;
    if tokens != [] {
      var parts := EscapeAll(tokens);
      forall i | 0 <= i < |parts| ensures Free(parts[i], '/') && Unescape(parts[i]) == tokens[i] {
        EscapeFree(tokens[i]);
        UnescapeEscape(tokens[i]);
      }
      SplitJoin(parts, '/');
      assert BuildPointer(tokens)[1..] == Join(parts, "/");
      assert UnescapeAll(parts) == tokens;
    }
  }

  // ------------------------------------------------------------------ percent encoding

  /** The characters `encodeURIComponent` leaves alone. */
  predicate IsUnreserved(c: char) {
    || 'A' <= c <= 'Z' || 'a' <= c <= 'z' || '0' <= c <= '9'
    || c == '-' || c == '_' || c == '.' || c == '!' || c == '~' || c == '*' || c == '\'' || c == '(' || c == ')'
  }

  function HexDigit(n: nat): char
    requires n < 16
  {
    if n < 10 then (48 + n) as char else (55 + n) as char
  }

  function HexValue(c: char): Option<nat> {
    if '0' <= c <= '9' then Some(c as nat - 48)
    else if 'A' <= c <= 'F' then Some(c as nat - 55)
    else if 'a' <= c <= 'f' then Some(c as nat - 87)
    else None
  }

  /** Section 2.1 of RFC 3986: a percent sign and two hexadecimal digits. */
  function Percent(b: Utf8.byte): string {
    ['%', HexDigit(b / 16), HexDigit(b % 16)]
  }

  function EncodeOne(c: char): string {
    if IsUnreserved(c) then [c] else Flat(Percent, Utf8.EncodeChar(c))
  }

  function EncodeComponent(s: string): string {
    Flat(EncodeOne, s)
  }

  /** The bytes a percent-encoded text stands for. */
  function PercentDecode(s: string): Option<seq<Utf8.byte>> {
    if s == "" then Some([])
    else if s[0] != '%' then
      match PercentDecode(s[1..])
      case None => None
      case Some(rest) => Some(Utf8.EncodeChar(s[0]) + rest)
    else if |s| < 3 || HexValue(s[1]).None? || HexValue(s[2]).None? then None
    else
      match PercentDecode(s[3..])
      case None => None
      case Some(rest) => Some([16 * HexValue(s[1]).value + HexValue(s[2]).value] + rest)
  }

  function DecodeComponent(s: string): Option<string> {
    match PercentDecode(s)
    case None => None
    case Some(bytes) => Utf8.Decode(bytes)
  }

  lemma DecodePercent(b: Utf8.byte, s: string, rest: seq<Utf8.byte>)
    requires PercentDecode(s) == Some(rest)
    ensures PercentDecode(Percent(b) + s) == Some([b] + rest)
  {
    var t := Percent(b) + s;
    assert t[3..] == s;
    assert HexValue(HexDigit(b / 16)) == Some(b / 16) && HexValue(HexDigit(b % 16)) == Some(b % 16);
  }

  lemma {:induction false} DecodePercents(bytes: seq<Utf8.byte>, s: string, rest: seq<Utf8.byte>)
    requires PercentDecode(s) == Some(rest)
    ensures PercentDecode(Flat(Percent, bytes) + s) == Some(bytes + rest)
  {
    hide Percent;
    if bytes == [] {
      assert Flat(Percent, bytes) + s == s && bytes + rest == rest;
    } else {
      hide PercentDecode;
      var tail := Flat(Percent, bytes[1..]) + s;
      DecodePercents(bytes[1..], s, rest);
      DecodePercent(bytes[0], tail, bytes[1..] + rest);
      ConcatThree(Percent(bytes[0]), Flat(Percent, bytes[1..]), s);
      ConcatThree([bytes[0]], bytes[1..], rest);
      assert bytes == [bytes[0]] + bytes[1..];
    }
  }

  lemma {:induction false} DecodeToBytes(s: string)
    ensures PercentDecode(EncodeComponent(s)) == Some(Utf8.Encode(s))
  {
    hide Percent, IsUnreserved;
    if s != "" {
      DecodeToBytes(s[1..]);
      var rest := EncodeComponent(s[1..]);
      if IsUnreserved(s[0]) {
        PercentIsReserved(s[0]);
        assert ([s[0]] + rest)[1..] == rest;
      } else {
        DecodePercents(Utf8.EncodeChar(s[0]), rest, Utf8.Encode(s[1..]));
      }
    }
  }

  lemma PercentIsReserved(c: char)
    requires IsUnreserved(c)
    ensures c != '%' && c != '|'
  {}

  /** Decoding undoes percent-encoding, for every text. */
  lemma DecodeEncodedComponent(s: string)
    ensures DecodeComponent(EncodeComponent(s)) == Some(s)
  {
    DecodeToBytes(s);
    Utf8.DecodeEncode(s);
  }

  lemma {:induction false} PercentsFree(bytes: seq<Utf8.byte>)
    ensures Free(Flat(Percent, bytes), '|')
  {
    if bytes != [] {
      PercentsFree(bytes[1..]);
    }
  }

  /** An encoded part never holds the separator. */
  lemma {:induction false} EncodedFree(s: string)
    ensures Free(EncodeComponent(s), '|')
  {
    hide IsUnreserved;
    if s != "" {
      EncodedFree(s[1..]);
      PercentsFree(Utf8.EncodeChar(s[0]));
      if IsUnreserved(s[0]) {
        PercentIsReserved(s[0]);
      }
    }
  }

  // ------------------------------------------------------------------ selection addresses

  datatype Address = Address(versionId: string, pointer: string, entityId: Option<string>)

  function Serialize(a: Address): string {
    Join([EncodeComponent(a.versionId), EncodeComponent(a.pointer), EncodeComponent(a.entityId.GetOr(""))], "|")
  }

  /** The version, tokens and entity of a serialised address. */
  function ReadAddress(text: string): Option<(string, seq<string>, string)> {
    var parts := Split(text, '|');
    if |parts| != 3 then None
    else
      match (DecodeComponent(parts[0]), DecodeComponent(parts[1]), DecodeComponent(parts[2]))
      case (Some(version), Some(pointer), Some(entity)) =>
        (match ReadPointer(pointer)
         case None => None
         case Some(tokens) => Some((version, tokens, entity)))
      case _ => None
  }

  /** From a serialised address the version id, the exact tokens and the entity id are recovered. */
  lemma ReadSerialized(versionId: string, tokens: seq<string>, entityId: Option<string>)
    ensures ReadAddress(Serialize(Address(versionId, BuildPointer(tokens), entityId)))
         == Some((versionId, tokens, entityId.GetOr("")))
  {
    hide EncodeComponent, DecodeComponent, BuildPointer, ReadPointer, Free;
    var pointer, entity := BuildPointer(tokens), entityId.GetOr("");
    var parts := [EncodeComponent(versionId), EncodeComponent(pointer), EncodeComponent(entity)];
    EncodedFree(versionId);
    EncodedFree(pointer);
    EncodedFree(entity);
    SplitJoin(parts, '|');
    DecodeEncodedComponent(versionId);
    DecodeEncodedComponent(pointer);
    DecodeEncodedComponent(entity);
    ReadBuiltPointer(tokens);
  }

  // ------------------------------------------------------------------ the element of a thread

  datatype AnchorType = ClassAnchor | PropertyAnchor | PathAnchor | OperationAnchor | VersionAnchor

  /** The names that locate an element; an absent name is empty, which the address treats alike. */
  datatype Context = Context(className: string, propertyName: string, pathname: string, verb: string)

  datatype Thread = Thread(versionId: string, anchorType: AnchorType, anchorId: string, context: Option<Context>)

  /** The tokens that locate a thread's element, if it has a place on the canvas. */
  function AnchorTokens(t: Thread): Option<seq<string>> {
    if t.context.None? then None
    else
      var c := t.context.value;
      match t.anchorType
      case ClassAnchor => if c.className != "" then Some(["components", "schemas", c.className]) else None
      case PropertyAnchor =>
        if c.className != "" && c.propertyName != ""
        then Some(["components", "schemas", c.className, "properties", c.propertyName]) else None
      case PathAnchor => if c.pathname != "" then Some(["paths", c.pathname]) else None
      case OperationAnchor =>
        if c.pathname != "" && c.verb != "" then Some(["paths", c.pathname, Lower(c.verb)]) else None
      case VersionAnchor => None
  }

  function AnchorAddress(t: Thread): Option<Address> {
    match AnchorTokens(t)
    case None => None
    case Some(tokens) => Some(Address(t.versionId, BuildPointer(tokens), Some(t.anchorId)))
  }

  /** An element of a document, as a reader of an address finds it. */
  datatype Element =
    | ClassElement(className: string)
    | PropertyElement(className: string, propertyName: string)
    | PathElement(pathname: string)
    | OperationElement(pathname: string, verb: string)
    | NoElement

  function ElementAt(tokens: seq<string>): Element {
    if |tokens| == 3 && tokens[0] == "components" && tokens[1] == "schemas" then ClassElement(tokens[2])
    else if |tokens| == 5 && tokens[0] == "components" && tokens[1] == "schemas" && tokens[3] == "properties"
    then PropertyElement(tokens[2], tokens[4])
    else if |tokens| == 2 && tokens[0] == "paths" then PathElement(tokens[1])
    else if |tokens| == 3 && tokens[0] == "paths" then OperationElement(tokens[1], tokens[2])
    else NoElement
  }

  function ElementOf(t: Thread): Element {
    if t.context.None? then NoElement
    else
      var c := t.context.value;
      match t.anchorType
      case ClassAnchor => ClassElement(c.className)
      case PropertyAnchor => PropertyElement(c.className, c.propertyName)
      case PathAnchor => PathElement(c.pathname)
      case OperationAnchor => OperationElement(c.pathname, Lower(c.verb))
      case VersionAnchor => NoElement
  }

  /**
   * A thread's serialised address tells its version, its element, with the kind and all names (the verb
   * in lower case), and its id: no two elements share an address.
   */
  lemma AddressDeterminesElement(t: Thread)
    requires AnchorAddress(t).Some?
    ensures var read := ReadAddress(Serialize(AnchorAddress(t).value));
      && read.Some?
      && read.value.0 == t.versionId && read.value.2 == t.anchorId
      && ElementAt(read.value.1) == ElementOf(t)
  {
    hide ReadAddress, Serialize, BuildPointer;
    var tokens := AnchorTokens(t).value;
    ReadSerialized(t.versionId, tokens, Some(t.anchorId));
    assert "paths"[0] == 'p' && "components"[0] == 'c';
  }

  /** Two threads have the same link exactly when they discuss the same element of the same version. */
  lemma SameAddressSameElement(s: Thread, t: Thread)
    requires AnchorAddress(s).Some? && AnchorAddress(t).Some?
    ensures Serialize(AnchorAddress(s).value) == Serialize(AnchorAddress(t).value) <==>
      s.versionId == t.versionId && s.anchorId == t.anchorId && ElementOf(s) == ElementOf(t)
  {
    hide ReadAddress, Serialize, BuildPointer;
    AddressDeterminesElement(s);
    AddressDeterminesElement(t);
  }

  /** A thread has an address exactly when its kind has a place on the canvas and all names it needs are there. */
  lemma AddressExactly(t: Thread)
    ensures AnchorAddress(t).Some? <==>
      && t.anchorType != VersionAnchor && t.context.Some?
      && (t.anchorType == ClassAnchor || t.anchorType == PropertyAnchor ==> t.context.value.className != "")
      && (t.anchorType == PropertyAnchor ==> t.context.value.propertyName != "")
      && (t.anchorType == PathAnchor || t.anchorType == OperationAnchor ==> t.context.value.pathname != "")
      && (t.anchorType == OperationAnchor ==> t.context.value.verb != "")
  {}

  // ------------------------------------------------------------------ samples

  lemma EscapedLetter(c: char, t: string)
    ensures Escape([c] + t) == EscapeChar(c) + Escape(t)
  {
    assert ([c] + t)[1..] == t;
    EscapeCons([c] + t);
  }

  /** A slash is written `~1`, a tilde `~0`, and every other character as itself. */
  lemma EscapedCharacters(c: char)
    ensures EscapeChar(c) == if c == '/' then "~1" else if c == '~' then "~0" else [c]
  {}

  /** The tokens `a/b` and `m~n`, as section 5 of RFC 6901 writes them. */
  lemma PointerSample()
    ensures BuildPointer(["a/b", "m~n"]) == "/" + ("a" + "~1" + "b") + "/" + ("m" + "~0" + "n")
  {
    hide Escape, EscapeChar;
    EscapedSample('a', '/', 'b');
    EscapedSample('m', '~', 'n');
    EscapedCharacters('a');
    EscapedCharacters('/');
    EscapedCharacters('b');
    EscapedCharacters('m');
    EscapedCharacters('~');
    EscapedCharacters('n');
    assert ['a', '/', 'b'] == "a/b" && ['m', '~', 'n'] == "m~n";
    var parts := EscapeAll(["a/b", "m~n"]);
    assert parts == [Escape("a/b"), Escape("m~n")] && parts[1..] == [Escape("m~n")];
  }

  lemma EscapedSample(a: char, b: char, c: char)
    ensures Escape([a, b, c]) == EscapeChar(a) + EscapeChar(b) + EscapeChar(c)
  {
    hide Escape, EscapeChar;
    EscapedLetter(a, [b, c]);
    EscapedLetter(b, [c]);
    EscapedLetter(c, []);
    EscapeNothing();
    assert [a] + [b, c] == [a, b, c] && [b] + [c] == [b, c] && [c] + [] == [c];
  }

  /** A text is left alone exactly when it is letters, digits and `-_.!~*'()`. */
  lemma {:induction false} EncodedAloneExactly(s: string)
    ensures EncodeComponent(s) == s <==> forall c :: c in s ==>
      || 'A' <= c <= 'Z' || 'a' <= c <= 'z' || '0' <= c <= '9' || c in "-_.!~*'()"
    ensures |EncodeComponent(s)| >= |s|
  {
    if s != "" {
      EncodedAloneExactly(s[1..]);
      assert s == [s[0]] + s[1..];
      EncodedLonger(s[0]);
      var encoded := EncodeOne(s[0]) + EncodeComponent(s[1..]);
      assert EncodeComponent(s) == encoded;
      if EncodeComponent(s) == s {
        assert |EncodeOne(s[0])| == 1;
        assert encoded[1..] == EncodeComponent(s[1..]);
      }
    }
  }

  lemma EncodedLonger(c: char)
    ensures if IsUnreserved(c) then EncodeOne(c) == [c] else |EncodeOne(c)| >= 3
    ensures IsUnreserved(c) <==> 'A' <= c <= 'Z' || 'a' <= c <= 'z' || '0' <= c <= '9' || c in "-_.!~*'()"
  {
    if !IsUnreserved(c) {
      var bytes := Utf8.EncodeChar(c);
      assert Flat(Percent, bytes) == Percent(bytes[0]) + Flat(Percent, bytes[1..]);
    }
  }

  /** The slash and the bar as they are encoded, in upper-case hexadecimal digits. */
  lemma EncodedSamples()
    ensures EncodeComponent("/") == "%2F" && EncodeComponent("|") == "%7C"
  {
    assert "/"[1..] == "" && "|"[1..] == "" && EncodeComponent("") == "";
    assert Utf8.EncodeChar('/') == [0x2F] && Utf8.EncodeChar('|') == [0x7C];
    assert [0x2F as Utf8.byte][1..] == [] && [0x7C as Utf8.byte][1..] == [];
    assert Percent(0x2F) == "%2F" && Percent(0x7C) == "%7C";
    assert Flat(Percent, [0x2F]) == Percent(0x2F) + [] && Flat(Percent, [0x7C]) == Percent(0x7C) + [];
  }

  /** The version comes first, then the pointer, then the entity. */
  lemma SerializedParts(a: Address)
    ensures Serialize(a) == EncodeComponent(a.versionId) + "|" + EncodeComponent(a.pointer)
                            + "|" + EncodeComponent(a.entityId.GetOr(""))
  {
    var v, p, e := EncodeComponent(a.versionId), EncodeComponent(a.pointer), EncodeComponent(a.entityId.GetOr(""));
    assert [v, p, e][1..] == [p, e] && [p, e][1..] == [e];
    assert v + "|" + (p + "|" + e) == v + "|" + p + "|" + e;
  }
}
