/** The checksum of a migration script: line endings, UTF-8, CRC-32, signed 32-bit. */
module Checksums {
  import opened Text
  import Crc32
  import Bytes
  import Utf8

  /** `replace(/\r\n/g, "\n")`. */
  function ReplaceCrLf(s: string): string {
    if s == "" then ""
    else if |s| >= 2 && s[0] == '\r' && s[1] == '\n' then "\n" + ReplaceCrLf(s[2..])
    else [s[0]] + ReplaceCrLf(s[1..])
  }

  /** `replace(/\r/g, "\n")`. */
  function ReplaceCr(s: string): string {
    if s == "" then "" else [if s[0] == '\r' then '\n' else s[0]] + ReplaceCr(s[1..])
  }

  function Normalize(sql: string): string {
    ReplaceCr(ReplaceCrLf(sql))
  }

  function Octets(s: string): seq<bv8> {
    var bytes := Utf8.Encode(s);
    seq(|bytes|, i requires 0 <= i < |bytes| => bytes[i] as bv8)
  }

  /** The 32 bits read as a signed integer, as the history table's `checksum INTEGER` stores them. */
  function Signed(c: bv32): int {
    SignedNumber(Number32(c))
  }

  function Number32(c: bv32): int {
    c as int
  }

  function SignedNumber(n: int): int {
    if n < 0x8000_0000 then n else n - 0x1_0000_0000
  }

  function Checksum(sql: string): int {
    Signed(Crc32.Crc(Octets(Normalize(sql))))
  }

  method ComputeChecksum(sql: string) returns (sum: int)
    ensures sum == Checksum(sql)
  {
    var crc := Crc32.TableCrc(Octets(Normalize(sql)));
    sum := Signed(crc);
  }

  lemma Number32RoundTrip(c: bv32)
    ensures (c as int) as bv32 == c
  {}

  lemma Number32Injective(c: bv32, d: bv32)
    requires Number32(c) == Number32(d)
    ensures c == d
  {
    Number32RoundTrip(c);
    Number32RoundTrip(d);
  }

  lemma Number32Range(c: bv32)
    ensures 0 <= Number32(c) < 0x1_0000_0000
  {}

  /** The stored integer determines the 32 bits, and is in the range of the column. */
  lemma SignedFaithful(c: bv32, d: bv32)
    ensures Signed(c) == Signed(d) <==> c == d
    ensures -0x8000_0000 <= Signed(c) < 0x8000_0000
  {
    hide Number32;
    Number32Range(c);
    Number32Range(d);
    if Signed(c) == Signed(d) {
      Number32Injective(c, d);
    }
  }

  /** Different texts of one length that agree outside the `n` bytes from `at` on. */
  predicate DifferWithin(x: seq<bv8>, y: seq<bv8>, at: nat, n: nat) {
    && |x| == |y| && x != y && at + n <= |x|
    && x[..at] == y[..at] && x[at + n..] == y[at + n..]
  }

  /** The normalised bytes of the two scripts differ only inside four consecutive bytes. */
  predicate SmallEdit(before: string, after: string, at: nat) {
    exists n: nat :: n <= 4 && DifferWithin(Octets(Normalize(before)), Octets(Normalize(after)), at, n)
  }

  /** The stored integer is the 32-bit word, taken modulo 2^32. */
  lemma SignedResidue(c: bv32)
    ensures exists k: int :: Signed(c) == (c as int) + k * 0x1_0000_0000
  {
    hide Number32;
    Number32Range(c);
    assert Number32(c) == c as int by {
      Number32Is(c);
    }
    assert Signed(c) == (c as int) + 0 * 0x1_0000_0000 || Signed(c) == (c as int) + -1 * 0x1_0000_0000;
  }

  lemma Number32Is(c: bv32)
    ensures Number32(c) == c as int
  {}

  lemma OctetAt(s: string, i: nat)
    requires i < |Utf8.Encode(s)|
    ensures |Octets(s)| == |Utf8.Encode(s)| && Octets(s)[i] as int == Utf8.Encode(s)[i]
  {
    hide Utf8.Encode;
    Bytes.ByteBack(Utf8.Encode(s)[i]);
  }

  lemma OctetCount(s: string)
    ensures |Octets(s)| == |Utf8.Encode(s)|
  {}

  /** Different texts have different bytes. */
  lemma OctetsInjective(s: string, t: string)
    requires Octets(s) == Octets(t)
    ensures s == t
  {
    var x, y := Utf8.Encode(s), Utf8.Encode(t);
    OctetCount(s);
    OctetCount(t);
    hide Octets, Utf8.Encode, Utf8.Decode;
    forall i | 0 <= i < |x| ensures x[i] == y[i] {
      OctetAt(s, i);
      OctetAt(t, i);
    }
    assert x == y;
    Utf8.DecodeEncode(s);
    Utf8.DecodeEncode(t);
  }

  /** An ASCII text has its own codes for bytes. */
  lemma OctetsOfAscii(s: string)
    requires forall i :: 0 <= i < |s| ==> s[i] as int < 0x80
    ensures |Octets(s)| == |s| && forall i :: 0 <= i < |s| ==> Octets(s)[i] as int == s[i] as int
  {
    Utf8.EncodeAscii(s);
    OctetCount(s);
    hide Octets, Utf8.Encode;
    forall i | 0 <= i < |s| ensures Octets(s)[i] as int == s[i] as int {
      OctetAt(s, i);
    }
  }

  /**
   * An edit of a script that stays inside four consecutive bytes of its normalised text, and keeps
   * the length, always changes the checksum.
   */
  lemma SmallEditDetected(before: string, after: string, at: nat)
    requires SmallEdit(before, after, at)
    ensures Checksum(before) != Checksum(after)
  {
    hide Octets, Normalize;
    var x, y := Octets(Normalize(before)), Octets(Normalize(after));
    var n: nat :| n <= 4 && DifferWithin(x, y, at, n);
    WindowSplit(x, at, n);
    WindowSplit(y, at, n);
    Crc32.WindowEditChangesCrc(x[..at], x[at..at + n], y[at..at + n], x[at + n..]);
    SignedFaithful(Crc32.Crc(x), Crc32.Crc(y));
  }

  lemma WindowSplit(x: seq<bv8>, at: nat, n: nat)
    requires at + n <= |x|
    ensures x == x[..at] + x[at..at + n] + x[at + n..]
  {}

  // ------------------------------------------------------------------ line endings

  datatype Ending = Lf | CrLf | Cr {
    function Text(): string {
      match this
      case Lf => "\n"
      case CrLf => "\r\n"
      case Cr => "\r"
    }
  }

  predicate IsLine(s: string) {
    '\r' !in s && '\n' !in s
  }

  predicate AreLines(lines: seq<string>) {
    |lines| >= 1 && forall i :: 0 <= i < |lines| ==> IsLine(lines[i])
  }

  /** The lines of a script written with one ending between each two of them. */
  function Render(lines: seq<string>, endings: seq<Ending>): string
    requires |lines| == |endings| + 1
  {
    if endings == [] then lines[0] else lines[0] + endings[0].Text() + Render(lines[1..], endings[1..])
  }

  /** Somewhere a CR ends a line and the next line is empty and ends with LF: together they read as one CRLF. */
  predicate Merges(lines: seq<string>, endings: seq<Ending>)
    requires |lines| == |endings| + 1
  {
    exists i :: 0 <= i < |endings| - 1 && endings[i] == Cr && lines[i + 1] == "" && endings[i + 1] == Lf
  }

  lemma NormalizeLine(line: string, rest: string)
    requires IsLine(line)
    ensures Normalize(line + rest) == line + Normalize(rest)
  {
    ReplaceCrLfLine(line, rest);
    ReplaceCrLine(line, ReplaceCrLf(rest));
  }

  lemma {:induction false} ReplaceCrLfLine(line: string, rest: string)
    requires IsLine(line)
    ensures ReplaceCrLf(line + rest) == line + ReplaceCrLf(rest)
  {
    var s := line + rest;
    if line == "" {
      assert s == rest;
    } else {
      assert s[0] == line[0] != '\r' && s[1..] == line[1..] + rest;
      assert ReplaceCrLf(s) == [line[0]] + ReplaceCrLf(line[1..] + rest);
      hide ReplaceCrLf;
      ReplaceCrLfLine(line[1..], rest);
      assert [line[0]] + (line[1..] + ReplaceCrLf(rest)) == [line[0]] + line[1..] + ReplaceCrLf(rest);
      assert line == [line[0]] + line[1..];
    }
  }

  lemma {:induction false} ReplaceCrLine(line: string, rest: string)
    requires IsLine(line)
    ensures ReplaceCr(line + rest) == line + ReplaceCr(rest)
  {
    var s := line + rest;
    if line == "" {
      assert s == rest;
    } else {
      assert s[0] == line[0] != '\r' && s[1..] == line[1..] + rest;
      assert ReplaceCr(s) == [line[0]] + ReplaceCr(line[1..] + rest);
      hide ReplaceCr;
      ReplaceCrLine(line[1..], rest);
      assert [line[0]] + (line[1..] + ReplaceCr(rest)) == [line[0]] + line[1..] + ReplaceCr(rest);
      assert line == [line[0]] + line[1..];
    }
  }

  lemma NormalizeEnding(e: Ending, rest: string)
    ensures !(e == Cr && rest != "" && rest[0] == '\n') ==> Normalize(e.Text() + rest) == "\n" + Normalize(rest)
    ensures e == Cr && rest != "" && rest[0] == '\n' ==> Normalize(e.Text() + rest) == "\n" + Normalize(rest[1..])
  {
    var s := e.Text() + rest;
    var t := ReplaceCrLf(s);
    match e
    case CrLf =>
      assert s[2..] == rest;
      assert t[1..] == ReplaceCrLf(rest);
    case Lf =>
      assert s[1..] == rest;
      assert t[1..] == ReplaceCrLf(rest);
    case Cr =>
      assert s[1..] == rest;
      if rest != "" && rest[0] == '\n' {
        assert s[2..] == rest[1..];
        assert t[1..] == ReplaceCrLf(rest[1..]);
      } else {
        assert t[1..] == ReplaceCrLf(rest);
      }
  }

  lemma RenderStart(lines: seq<string>, endings: seq<Ending>)
    requires |lines| == |endings| + 1 && AreLines(lines)
    ensures var r := Render(lines, endings);
            (r != "" && r[0] == '\n') <==> (endings != [] && lines[0] == "" && endings[0] == Lf)
  {
    if lines[0] != "" {
      assert lines[0][0] in lines[0];
    }
  }

  lemma MergesCons(lines: seq<string>, endings: seq<Ending>)
    requires |lines| == |endings| + 1 && |endings| >= 1
    ensures Merges(lines, endings) <==>
      (|endings| >= 2 && endings[0] == Cr && lines[1] == "" && endings[1] == Lf) || Merges(lines[1..], endings[1..])
  {
    if Merges(lines, endings) {
      var i :| 0 <= i < |endings| - 1 && endings[i] == Cr && lines[i + 1] == "" && endings[i + 1] == Lf;
      if i > 0 {
        assert endings[1..][i - 1] == Cr && lines[1..][i] == "" && endings[1..][i] == Lf;
      }
    }
    if Merges(lines[1..], endings[1..]) {
      var i :| 0 <= i < |endings[1..]| - 1
        && endings[1..][i] == Cr && lines[1..][i + 1] == "" && endings[1..][i + 1] == Lf;
      assert endings[i + 1] == Cr && lines[i + 2] == "" && endings[i + 2] == Lf;
    }
  }

  lemma NormalizeLineAndEnding(line: string, e: Ending, tail: string)
    requires IsLine(line)
    ensures Normalize(line + e.Text() + tail) == line + "\n" +
      Normalize(if e == Cr && tail != "" && tail[0] == '\n' then tail[1..] else tail)
  {
    hide Normalize, IsLine;
    NormalizeLine(line, e.Text() + tail);
    NormalizeEnding(e, tail);
    assert line + e.Text() + tail == line + (e.Text() + tail);
  }

  lemma MergedRender(lines: seq<string>, endings: seq<Ending>)
    requires |lines| == |endings| + 1 && endings != [] && lines[0] == "" && endings[0] == Lf
    ensures Render(lines, endings) == "\n" + Render(lines[1..], endings[1..])
  {}

  lemma {:induction false} NormalizeRendered(lines: seq<string>, endings: seq<Ending>)
    requires |lines| == |endings| + 1 && AreLines(lines)
    ensures |Normalize(Render(lines, endings))| <= |Join(lines, "\n")|
    ensures !Merges(lines, endings) ==> Normalize(Render(lines, endings)) == Join(lines, "\n")
    ensures Merges(lines, endings) ==> |Normalize(Render(lines, endings))| < |Join(lines, "\n")|
    decreases |endings|
  {
    hide Normalize, Merges;
    if endings == [] {
      NormalizeLine(lines[0], "");
      NormalizeNothing();
      NeverMergesAlone(lines, endings);
      assert lines[0] + "" == lines[0];
    } else {
      var tail := Render(lines[1..], endings[1..]);
      MergesCons(lines, endings);
      RenderStart(lines[1..], endings[1..]);
      NormalizeLineAndEnding(lines[0], endings[0], tail);
      if endings[0] == Cr && tail != "" && tail[0] == '\n' {
        NormalizeRendered(lines[2..], endings[2..]);
        assert lines[1..][1..] == lines[2..] && endings[1..][1..] == endings[2..];
        MergedRender(lines[1..], endings[1..]);
        assert tail[1..] == Render(lines[2..], endings[2..]);
      } else {
        NormalizeRendered(lines[1..], endings[1..]);
      }
    }
  }

  lemma NormalizeNothing()
    ensures Normalize("") == ""
  {}

  lemma NeverMergesAlone(lines: seq<string>, endings: seq<Ending>)
    requires |lines| == |endings| + 1 == 1
    ensures !Merges(lines, endings)
  {}

  /**
   * A script's text normalises to its lines joined by LF exactly when no CR ending is followed by an
   * empty line that ends with LF.
   */
  lemma LineEndingsNormalize(lines: seq<string>, endings: seq<Ending>)
    requires |lines| == |endings| + 1 && AreLines(lines)
    ensures Normalize(Render(lines, endings)) == Join(lines, "\n") <==> !Merges(lines, endings)
  {
    NormalizeRendered(lines, endings);
  }

  /** Scripts that differ only in their line endings have the same checksum. */
  lemma LineEndingsIgnored(lines: seq<string>, e: seq<Ending>, f: seq<Ending>)
    requires |lines| == |e| + 1 == |f| + 1 && AreLines(lines)
    requires !Merges(lines, e) && !Merges(lines, f)
    ensures Checksum(Render(lines, e)) == Checksum(Render(lines, f))
  {
    NormalizeRendered(lines, e);
    NormalizeRendered(lines, f);
  }

  /** One ending used throughout never merges, so converting a whole script is always harmless. */
  lemma UniformEndingsNeverMerge(lines: seq<string>, endings: seq<Ending>, e: Ending)
    requires |lines| == |endings| + 1
    requires forall i :: 0 <= i < |endings| ==> endings[i] == e
    ensures !Merges(lines, endings)
  {
  }

  lemma LineFeeds()
    ensures Octets(Normalize("\n")) == [0x0A] == Octets(Normalize("\r\n"))
    ensures Octets(Normalize("\n\n")) == [0x0A, 0x0A]
  {
    assert "\n"[1..] == "" && "\n\n"[1..] == "\n" && "\r\n"[2..] == "";
    assert ReplaceCrLf("\n") == "\n" && ReplaceCrLf("\n\n") == "\n\n" && ReplaceCrLf("\r\n") == "\n";
    assert ReplaceCr("\n") == "\n" && ReplaceCr("\n\n") == "\n\n";
    assert Utf8.Encode("\n") == [0x0A] && Utf8.Encode("\n\n") == [0x0A, 0x0A];
  }

  /** A script whose checksum is not 0: a single line feed. */
  lemma LineFeedChecksum()
    ensures Checksum("\n") != 0
  {
    LineFeeds();
    Crc32.LineFeedCrc();
    SignedFaithful(Crc32.Crc([0x0A]), 0);
  }

  /** The same three empty lines, with a CR and an LF once and with two LFs once, have different checksums. */
  lemma MixedEndingsChangeChecksum()
    ensures var lines, mixed, uniform := ["", "", ""], [Cr, Lf], [Lf, Lf];
      && Merges(lines, mixed) && Render(lines, mixed) == "\r\n" && Render(lines, uniform) == "\n\n"
      && Checksum(Render(lines, mixed)) != Checksum(Render(lines, uniform))
  {
    hide Checksum;
    var lines, mixed, uniform := ["", "", ""], [Cr, Lf], [Lf, Lf];
    assert mixed[0] == Cr && lines[1] == "" && mixed[1] == Lf;
    assert lines[1..] == ["", ""] && [""] == lines[1..][1..];
    assert mixed[1..] == [Lf] == uniform[1..] && [Lf][1..] == [];
    assert Render(["", ""], [Lf]) == "\n";
    assert Render(lines, mixed) == "\r\n" && Render(lines, uniform) == "\n\n";
    LineFeedsDiffer();
  }

  lemma LineFeedsDiffer()
    ensures Checksum("\r\n") != Checksum("\n\n")
  {
    LineFeeds();
    Crc32.SecondLineFeedCounts();
    SignedFaithful(Crc32.Crc([0x0A]), Crc32.Crc([0x0A, 0x0A]));
  }
}
