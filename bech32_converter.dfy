/*
 * The stand-alone address converter: `convert_address` re-encodes the data
 * part of a Bech32 address under a new prefix, and `convert_addresses` runs it
 * over the lines of a file, skipping the lines it rejects. The file is its
 * list of lines on input and the joined text on output; opening, reading,
 * writing and the warning printed for a skipped line are not modelled.
 */
module Bech32Converter {
  import opened Wrappers
  import opened Bech32

  /** The `ValueError` raised for an address the decoder rejects. */
  datatype ConvertError = InvalidAddress(address: string)

  /** `convert_address`: rejects the address unless the decoder returns both a
    * prefix and a data part, and otherwise encodes that data part under
    * `newPrefix`. */
  function ConvertAddress(codec: Codec, address: string, newPrefix: string): (r: Result<string, ConvertError>)
    ensures r.Failure? <==> !Decodes(codec, address)
    ensures r.Failure? ==> r.error == InvalidAddress(address)
  {
    var decoded := codec.decode(address);
    if decoded.hrp.None? || decoded.data.None? then Failure(InvalidAddress(address))
    else Success(codec.encode(newPrefix, decoded.data.value))
  }

  /** A converted address decodes to the new prefix and the original data part. */
  lemma ConvertedDecodes(codec: Codec, address: string, newPrefix: string)
    requires RoundTrips(codec)
    requires Decodes(codec, address) && Encodable(newPrefix, Payload(codec, address))
    ensures ConvertAddress(codec, address, newPrefix).Success?
    ensures codec.decode(ConvertAddress(codec, address, newPrefix).value)
            == Decoded(Some(newPrefix), Some(Payload(codec, address)))
  {
  }

  /** Converting a converted address to the same prefix changes nothing. */
  lemma ConvertIdempotent(codec: Codec, address: string, newPrefix: string)
    requires RoundTrips(codec)
    requires Decodes(codec, address) && Encodable(newPrefix, Payload(codec, address))
    ensures ConvertAddress(codec, address, newPrefix).Success?
    ensures ConvertAddress(codec, ConvertAddress(codec, address, newPrefix).value, newPrefix)
            == ConvertAddress(codec, address, newPrefix)
  {
    ConvertedDecodes(codec, address, newPrefix);
  }

  /** Converting an address to another prefix and back gives the address itself
    * whenever it was an encoding to begin with. */
  lemma ConvertBack(codec: Codec, hrp: string, data: seq<int>, newPrefix: string)
    requires RoundTrips(codec)
    requires Encodable(hrp, data) && Encodable(newPrefix, data)
    ensures ConvertAddress(codec, codec.encode(hrp, data), newPrefix).Success?
    ensures ConvertAddress(codec, ConvertAddress(codec, codec.encode(hrp, data), newPrefix).value, hrp)
            == Success(codec.encode(hrp, data))
  {
    var address := codec.encode(hrp, data);
    assert codec.decode(address) == Decoded(Some(hrp), Some(data));
    ConvertedDecodes(codec, address, newPrefix);
  }

  /** The characters Python's `str.isspace` accepts, which `str.strip()` removes. */
  predicate IsSpace(c: char) {
    || c == '\t' || c == '\n' || c == '\U{0B}' || c == '\U{0C}' || c == '\r'
    || ('\U{1C}' <= c <= '\U{1F}') || c == ' ' || c == '\U{85}' || c == '\U{A0}'
    || c == '\U{1680}' || ('\U{2000}' <= c <= '\U{200A}') || c == '\U{2028}'
    || c == '\U{2029}' || c == '\U{202F}' || c == '\U{205F}' || c == '\U{3000}'
  }

  /** Drops leading whitespace. */
  function StripStart(s: string): string {
    if |s| > 0 && IsSpace(s[0]) then StripStart(s[1..]) else s
  }

  /** Drops trailing whitespace. */
  function StripEnd(s: string): string {
    if |s| > 0 && IsSpace(s[|s| - 1]) then StripEnd(s[..|s| - 1]) else s
  }

  /** `str.strip()` with no argument. */
  function Strip(s: string): string {
    StripEnd(StripStart(s))
  }

  /** `StripStart` keeps the suffix that starts at the first non-space character. */
  lemma {:induction false} StripStartSuffix(s: string)
    ensures |StripStart(s)| <= |s| && StripStart(s) == s[|s| - |StripStart(s)|..]
    ensures forall i :: 0 <= i < |s| - |StripStart(s)| ==> IsSpace(s[i])
    ensures StripStart(s) == [] || !IsSpace(StripStart(s)[0])
  {
    if |s| > 0 && IsSpace(s[0]) {
      StripStartSuffix(s[1..]);
      assert s[1..][|s| - 1 - |StripStart(s)|..] == s[|s| - |StripStart(s)|..];
      forall i | 1 <= i < |s| - |StripStart(s)| ensures IsSpace(s[i]) {
        assert s[i] == s[1..][i - 1];
      }
    }
  }

  /** `StripEnd` keeps the prefix that ends at the last non-space character. */
  lemma {:induction false} StripEndPrefix(s: string)
    ensures |StripEnd(s)| <= |s| && StripEnd(s) == s[..|StripEnd(s)|]
    ensures forall i :: |StripEnd(s)| <= i < |s| ==> IsSpace(s[i])
    ensures StripEnd(s) == [] || !IsSpace(StripEnd(s)[|StripEnd(s)| - 1])
  {
    if |s| > 0 && IsSpace(s[|s| - 1]) {
      StripEndPrefix(s[..|s| - 1]);
      assert s[..|s| - 1][..|StripEnd(s)|] == s[..|StripEnd(s)|];
      forall i | |StripEnd(s)| <= i < |s| - 1 ensures IsSpace(s[i]) {
        assert s[i] == s[..|s| - 1][i];
      }
    }
  }

  /** Stripping keeps a slice of the line with no whitespace at either end and
    * removes only whitespace around it. */
  lemma StripIsTrimmedSlice(s: string)
    ensures exists i, j ::
              && 0 <= i <= j <= |s| && Strip(s) == s[i..j]
              && (forall k :: 0 <= k < i ==> IsSpace(s[k]))
              && (forall k :: j <= k < |s| ==> IsSpace(s[k]))
    ensures Strip(s) == [] || (!IsSpace(Strip(s)[0]) && !IsSpace(Strip(s)[|Strip(s)| - 1]))
  {
    var t := StripStart(s);
    var r := StripEnd(t);
    StripStartSuffix(s);
    StripEndPrefix(t);
    var i := |s| - |t|;
    var j := i + |r|;
    assert r == s[i..j];
    forall k | j <= k < |s| ensures IsSpace(s[k]) {
      assert s[k] == t[k - i];
    }
    if r != [] {
      assert r[0] == t[0];
    }
  }

  /** Stripping a stripped line changes nothing. */
  lemma StripIdempotent(s: string)
    ensures Strip(Strip(s)) == Strip(s)
  {
    var r := Strip(s);
    StripIsTrimmedSlice(s);
    assert StripStart(r) == r;
    assert StripEnd(r) == r;
  }

  /** What one input line contributes: its stripped text, converted. */
  function ConvertLine(codec: Codec, line: string, newPrefix: string): Result<string, ConvertError> {
    ConvertAddress(codec, Strip(line), newPrefix)
  }

  /** The list `convert_addresses` accumulates: the conversions of the lines it
    * accepts, in input order; rejected lines are skipped. */
  function ConvertedLines(codec: Codec, lines: seq<string>, newPrefix: string): seq<string>
    decreases |lines|
  {
    if |lines| == 0 then []
    else
      var before := ConvertedLines(codec, lines[..|lines| - 1], newPrefix);
      match ConvertLine(codec, lines[|lines| - 1], newPrefix)
      case Success(converted) => before + [converted]
      case Failure(_) => before
  }

  /** The number of lines whose stripped text the decoder accepts. */
  function AcceptedCount(codec: Codec, lines: seq<string>): (n: nat)
    ensures n <= |lines|
  {
    if |lines| == 0 then 0
    else (if Decodes(codec, Strip(lines[0])) then 1 else 0) + AcceptedCount(codec, lines[1..])
  }

  /** Converting two blocks of lines is converting each and concatenating: the
    * accepted lines keep their relative order. */
  lemma {:induction false} ConvertedLinesAppend(codec: Codec, a: seq<string>, b: seq<string>, newPrefix: string)
    ensures ConvertedLines(codec, a + b, newPrefix)
            == ConvertedLines(codec, a, newPrefix) + ConvertedLines(codec, b, newPrefix)
    decreases |b|
  {
    if |b| == 0 {
      assert a + b == a;
    } else {
      var b' := b[..|b| - 1];
      assert (a + b)[..|a + b| - 1] == a + b';
      assert (a + b)[|a + b| - 1] == b[|b| - 1];
      ConvertedLinesAppend(codec, a, b', newPrefix);
    }
  }

  /** One output address per accepted line. */
  lemma {:induction false} ConvertedLinesCount(codec: Codec, lines: seq<string>, newPrefix: string)
    ensures |ConvertedLines(codec, lines, newPrefix)| == AcceptedCount(codec, lines)
    decreases |lines|
  {
    if |lines| > 0 {
      assert lines == [lines[0]] + lines[1..];
      ConvertedLinesAppend(codec, [lines[0]], lines[1..], newPrefix);
      assert [lines[0]][..0] == [];
      ConvertedLinesCount(codec, lines[1..], newPrefix);
    }
  }

  /** An output address is exactly the conversion of some accepted input line. */
  lemma {:induction false} ConvertedLinesMembers(codec: Codec, lines: seq<string>, newPrefix: string, x: string)
    ensures x in ConvertedLines(codec, lines, newPrefix)
            <==> exists i :: 0 <= i < |lines| && ConvertLine(codec, lines[i], newPrefix) == Success(x)
    decreases |lines|
  {
    if |lines| > 0 {
      var init := lines[..|lines| - 1];
      var last := ConvertLine(codec, lines[|lines| - 1], newPrefix);
      ConvertedLinesMembers(codec, init, newPrefix, x);
      assert ConvertedLines(codec, lines, newPrefix)
             == ConvertedLines(codec, init, newPrefix) + (if last.Success? then [last.value] else []);
      if i :| 0 <= i < |lines| && ConvertLine(codec, lines[i], newPrefix) == Success(x) {
        if i < |init| {
          assert init[i] == lines[i];
        }
      }
      if x in ConvertedLines(codec, init, newPrefix) {
        var i: nat :| i < |init| && ConvertLine(codec, init[i], newPrefix) == Success(x);
        assert ConvertLine(codec, lines[i], newPrefix) == Success(x);
      }
    }
  }

  /** `'\n'.join(...)`. */
  function JoinLines(lines: seq<string>): string
    decreases |lines|
  {
    if |lines| == 0 then ""
    else if |lines| == 1 then lines[0]
    else lines[0] + "\n" + JoinLines(lines[1..])
  }

  /** The line boundaries Python's `str.splitlines` recognises. */
  predicate IsLineBreak(c: char) {
    || c == '\n' || c == '\r' || c == '\U{0B}' || c == '\U{0C}' || ('\U{1C}' <= c <= '\U{1E}')
    || c == '\U{85}' || c == '\U{2028}' || c == '\U{2029}'
  }

  /** The index of the first line break at or after `i`, or `|s|`. */
  function LineEnd(s: string, i: nat): (k: nat)
    requires i <= |s|
    ensures i <= k <= |s|
    ensures forall j :: i <= j < k ==> !IsLineBreak(s[j])
    ensures k < |s| ==> IsLineBreak(s[k])
    decreases |s| - i
  {
    if i == |s| || IsLineBreak(s[i]) then i else LineEnd(s, i + 1)
  }

  /** `str.splitlines()`: lines without their terminators; `\r\n` is one
    * terminator, and a terminator at the very end opens no further line. */
  function SplitLines(s: string): seq<string>
    decreases |s|
  {
    if |s| == 0 then []
    else
      var k := LineEnd(s, 0);
      if k == |s| then [s]
      else
        var width := if s[k] == '\r' && k + 1 < |s| && s[k + 1] == '\n' then 2 else 1;
        [s[..k]] + SplitLines(s[k + width..])
  }

  /** A line that survives writing and reading back: not empty, no line break. */
  predicate LineSafe(line: string) {
    |line| > 0 && forall j :: 0 <= j < |line| ==> !IsLineBreak(line[j])
  }

  /** Splitting the joined text gives back the joined lines, provided no line
    * holds a break and the last one is not empty. */
  lemma {:induction false} SplitJoinLines(lines: seq<string>)
    requires forall i :: 0 <= i < |lines| ==> LineSafe(lines[i])
    ensures SplitLines(JoinLines(lines)) == lines
    decreases |lines|
  {
    if |lines| == 1 {
      assert LineSafe(lines[0]);
      assert LineEnd(lines[0], 0) == |lines[0]|;
    } else if |lines| > 1 {
      var rest := JoinLines(lines[1..]);
      var s := lines[0] + "\n" + rest;
      assert LineSafe(lines[0]);
      assert s[..|lines[0]|] == lines[0];
      assert LineEnd(s, 0) == |lines[0]| by { BreakAfterLine(lines[0], rest); }
      assert s[|lines[0]| + 1..] == rest;
      SplitJoinLines(lines[1..]);
    }
  }

  lemma BreakAfterLine(line: string, rest: string)
    requires LineSafe(line)
    ensures LineEnd(line + "\n" + rest, 0) == |line|
  {
    var s := line + "\n" + rest;
    assert s[|line|] == '\n';
    assert forall j :: 0 <= j < |line| ==> s[j] == line[j];
  }

  /** `convert_addresses` on the lines of the input file: returns the text
    * written to the output file and the number of converted addresses. */
  method ConvertAddresses(codec: Codec, lines: seq<string>, newPrefix: string) returns (written: string, count: nat)
    ensures written == JoinLines(ConvertedLines(codec, lines, newPrefix))
    ensures count == |ConvertedLines(codec, lines, newPrefix)| == AcceptedCount(codec, lines)
  {
    var converted: seq<string> := [];
    for k := 0 to |lines|
      invariant converted == ConvertedLines(codec, lines[..k], newPrefix)
    {
      assert lines[..k + 1][..k] == lines[..k];
      var result := ConvertAddress(codec, Strip(lines[k]), newPrefix);
      if result.Success? {
        converted := converted + [result.value];
      }
      // A rejected line is reported and skipped.
    }
    assert lines[..|lines|] == lines;
    ConvertedLinesCount(codec, lines, newPrefix);
    written := JoinLines(converted);
    count := |converted|;
  }

  /** The count `convert_addresses` returns is the number of lines of the file it
    * wrote, when every converted address is a safe line. */
  lemma WrittenLinesCount(codec: Codec, lines: seq<string>, newPrefix: string)
    requires forall x :: x in ConvertedLines(codec, lines, newPrefix) ==> LineSafe(x)
    ensures SplitLines(JoinLines(ConvertedLines(codec, lines, newPrefix))) == ConvertedLines(codec, lines, newPrefix)
  {
    SplitJoinLines(ConvertedLines(codec, lines, newPrefix));
  }
}
