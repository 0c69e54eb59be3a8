/**
 * The vocabulary shared by every component (iobes/__init__.py): the token
 * function codes, the encoding schemes and their name parser, and the Span
 * and Error records.
 */
module Iobes {
  import opened Wrappers

  // Token function codes.
  const Outside: string := "O"
  const Begin: string := "B"
  const Inside: string := "I"
  const Middle: string := "M"
  const End: string := "E"
  const Last: string := "L"
  const Single: string := "S"
  const Unit: string := "U"
  const Whole: string := "W"

  /** All nine codes, in declaration order. */
  const FunctionCodes: seq<string> := [Outside, Begin, Inside, Middle, End, Last, Single, Unit, Whole]

  datatype Encoding = IOB | BIO | IOBES | BILOU | BMEWO | TOKEN

  /** A typed span over token positions `start` (inclusive) to `end` (exclusive). */
  datatype Span = Span(spanType: string, start: nat, end: nat, tokens: seq<nat>)

  /** One reported rule violation. */
  datatype Error = Error(location: int, errorType: string)

  /** The Python exceptions the library raises. */
  datatype Exception = ValueError(message: string) | IndexError

  /** The characters Python's `str.strip()` removes, restricted to ASCII. */
  predicate IsSpace(c: char) {
    c == ' ' || (9 <= c as int <= 13) || (28 <= c as int <= 31)
  }

  function LowerChar(c: char): char {
    if 'A' <= c <= 'Z' then (c as int + 32) as char else c
  }

  function UpperChar(c: char): char {
    if 'a' <= c <= 'z' then (c as int - 32) as char else c
  }

  /** ASCII `str.lower()`. */
  function Lower(s: string): (r: string)
    ensures |r| == |s| && forall i :: 0 <= i < |s| ==> r[i] == LowerChar(s[i])
  {
    seq(|s|, i requires 0 <= i < |s| => LowerChar(s[i]))
  }

  function Upper(s: string): (r: string)
    ensures |r| == |s| && forall i :: 0 <= i < |s| ==> r[i] == UpperChar(s[i])
  {
    seq(|s|, i requires 0 <= i < |s| => UpperChar(s[i]))
  }

  function StripLeft(s: string): string {
    if |s| > 0 && IsSpace(s[0]) then StripLeft(s[1..]) else s
  }

  function StripRight(s: string): string {
    if |s| > 0 && IsSpace(s[|s| - 1]) then StripRight(s[..|s| - 1]) else s
  }

  /** ASCII `str.strip()`. */
  function Strip(s: string): string {
    StripRight(StripLeft(s))
  }

  /** What `from_string` compares against the scheme names. */
  function Normalize(value: string): string {
    Strip(Lower(value))
  }

  /** `Encoding.from_string`: a case-insensitive, whitespace-trimmed scheme name. */
  function FromString(value: string): Result<Encoding, Exception> {
    var v := Normalize(value);
    if v == "iob" then Success(IOB)
    else if v == "iob2" || v == "bio" then Success(BIO)
    else if v == "iobes" then Success(IOBES)
    else if v == "bilou" then Success(BILOU)
    else if v == "bmewo" then Success(BMEWO)
    else if v == "token" then Success(TOKEN)
    else Failure(ValueError("Unknown Encoding Scheme, got: `" + v + "`"))
  }

  /** The names `from_string` accepts, after normalisation. */
  const SchemeNames: seq<string> := ["iob", "iob2", "bio", "iobes", "bilou", "bmewo", "token"]

  /** The nine codes are distinct one-letter strings, none of them the separator. */
  lemma FunctionCodesDistinct()
    ensures forall i :: 0 <= i < |FunctionCodes| ==> |FunctionCodes[i]| == 1 && '-' !in FunctionCodes[i]
    ensures forall i, j :: 0 <= i < j < |FunctionCodes| ==> FunctionCodes[i] != FunctionCodes[j]
  {
  }

  /** A name is accepted exactly when its normalised form is one of the listed aliases, and the aliases map as stated. */
  lemma FromStringAccepts(value: string)
    ensures FromString(value).Success? <==> Normalize(value) in SchemeNames
    ensures FromString(value) == Success(BIO) <==> Normalize(value) in ["iob2", "bio"]
    ensures FromString(value) == Success(IOB) <==> Normalize(value) == "iob"
    ensures FromString(value) == Success(IOBES) <==> Normalize(value) == "iobes"
    ensures FromString(value) == Success(BILOU) <==> Normalize(value) == "bilou"
    ensures FromString(value) == Success(BMEWO) <==> Normalize(value) == "bmewo"
    ensures FromString(value) == Success(TOKEN) <==> Normalize(value) == "token"
    ensures FromString(value).Failure? ==> FromString(value).error.ValueError?
  {
  }

  lemma LowerAppend(a: string, b: string)
    ensures Lower(a + b) == Lower(a) + Lower(b)
  {
  }

  lemma LowerSpaces(ws: string)
    requires forall i :: 0 <= i < |ws| ==> IsSpace(ws[i])
    ensures Lower(ws) == ws
  {
  }

  lemma {:induction false} StripLeftSpaces(ws: string, s: string)
    requires forall i :: 0 <= i < |ws| ==> IsSpace(ws[i])
    ensures StripLeft(ws + s) == StripLeft(s)
    decreases |ws|
  {
    if |ws| > 0 {
      assert (ws + s)[1..] == ws[1..] + s;
      StripLeftSpaces(ws[1..], s);
    } else {
      assert ws + s == s;
    }
  }

  lemma {:induction false} StripRightSpaces(s: string, ws: string)
    requires forall i :: 0 <= i < |ws| ==> IsSpace(ws[i])
    ensures StripRight(s + ws) == StripRight(s)
    decreases |ws|
  {
    if |ws| > 0 {
      assert (s + ws)[..|s + ws| - 1] == s + ws[..|ws| - 1];
      StripRightSpaces(s, ws[..|ws| - 1]);
    } else {
      assert s + ws == s;
    }
  }

  /** Trailing spaces survive StripLeft unless everything was space. */
  lemma {:induction false} StripLeftAppendSpaces(s: string, ws: string)
    requires forall i :: 0 <= i < |ws| ==> IsSpace(ws[i])
    ensures StripLeft(s + ws) == if StripLeft(s) == [] then [] else StripLeft(s) + ws
    decreases |s|
  {
    if |s| == 0 {
      assert s + ws == ws;
      StripLeftSpaces(ws, []);
      assert ws + [] == ws;
    } else if IsSpace(s[0]) {
      assert (s + ws)[1..] == s[1..] + ws;
      StripLeftAppendSpaces(s[1..], ws);
    }
  }

  lemma StripSurrounded(ws1: string, s: string, ws2: string)
    requires forall i :: 0 <= i < |ws1| ==> IsSpace(ws1[i])
    requires forall i :: 0 <= i < |ws2| ==> IsSpace(ws2[i])
    ensures Strip(ws1 + s + ws2) == Strip(s)
  {
    assert ws1 + s + ws2 == ws1 + (s + ws2);
    StripLeftSpaces(ws1, s + ws2);
    StripLeftAppendSpaces(s, ws2);
    if StripLeft(s) != [] {
      StripRightSpaces(StripLeft(s), ws2);
    }
  }

  /** Surrounding whitespace never changes the parsed scheme. */
  lemma FromStringIgnoresSpace(ws1: string, value: string, ws2: string)
    requires forall i :: 0 <= i < |ws1| ==> IsSpace(ws1[i])
    requires forall i :: 0 <= i < |ws2| ==> IsSpace(ws2[i])
    ensures FromString(ws1 + value + ws2) == FromString(value)
  {
    LowerAppend(ws1 + value, ws2);
    LowerAppend(ws1, value);
    LowerSpaces(ws1);
    LowerSpaces(ws2);
    StripSurrounded(ws1, Lower(value), ws2);
  }

  /** Case never changes the parsed scheme. */
  lemma FromStringIgnoresCase(value: string)
    ensures FromString(Upper(value)) == FromString(value)
    ensures FromString(Lower(value)) == FromString(value)
  {
    assert Lower(Upper(value)) == Lower(value);
    assert Lower(Lower(value)) == Lower(value);
  }

  /** Examples: padding and mixed case are accepted. */
  lemma FromStringExamples()
    ensures FromString(" IOB2\n") == Success(BIO)
    ensures FromString("BiLoU") == Success(BILOU)
  {
    FromStringIgnoresSpace(" ", "IOB2", "\n");
    assert " IOB2\n" == " " + "IOB2" + "\n";
    assert Normalize("IOB2") == "iob2" by {
      assert Lower("IOB2") == "iob2";
      assert Strip("iob2") == "iob2";
    }
    assert Normalize("BiLoU") == "bilou" by {
      assert Lower("BiLoU") == "bilou";
      assert Strip("bilou") == "bilou";
    }
  }

  /** Examples: spellings the source rejects although other tools accept them. */
  lemma FromStringRejects()
    ensures FromString("bmeow").Failure?
    ensures FromString("bioul").Failure?
  {
    assert Lower("bmeow") == "bmeow";
    assert Strip("bmeow") == "bmeow";
    assert Lower("bioul") == "bioul";
    assert Strip("bioul") == "bioul";
  }
}
