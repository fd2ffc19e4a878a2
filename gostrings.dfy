/**
 * The parts of Go's strings, bytes and bufio packages that the markov core
 * relies on: white space as unicode.IsSpace defines it, splitting into fields
 * (bytes.Fields, and bufio.ScanWords which splits the same way), joining with
 * a single space (strings.Join(_, " ")) and strings.SplitN(_, " ", 2).
 * Strings are sequences of characters; Go's byte strings are read as UTF-8.
 */
module GoStrings {
  import opened Wrappers

  /** unicode.IsSpace: the separators of bytes.Fields and bufio.ScanWords. */
  predicate IsSpace(c: char) {
    || c == ' ' || c == '\t' || c == '\n' || c == '\U{B}' || c == '\U{C}' || c == '\r'
    || c == '\U{85}' || c == '\U{A0}' || c == '\U{1680}'
    || ('\U{2000}' <= c <= '\U{200A}')
    || c == '\U{2028}' || c == '\U{2029}' || c == '\U{202F}' || c == '\U{205F}' || c == '\U{3000}'
  }

  predicate NoSpace(w: string) {
    forall i :: 0 <= i < |w| ==> !IsSpace(w[i])
  }

  /** A field is a non-empty run of non-space characters. */
  predicate IsField(w: string) {
    w != [] && NoSpace(w)
  }

  predicate AllFields(ws: seq<string>) {
    forall i :: 0 <= i < |ws| ==> IsField(ws[i])
  }

  /** The length of the run of non-space characters that starts s. */
  function WordLen(s: string): (n: nat)
    ensures n <= |s| && NoSpace(s[..n])
    ensures n < |s| ==> IsSpace(s[n])
  {
    if s == [] || IsSpace(s[0]) then 0
    else
      var m := WordLen(s[1..]);
      assert s[..m + 1] == [s[0]] + s[1..][..m];
      m + 1
  }

  /** bytes.Fields / bufio.ScanWords: the maximal runs of non-space characters of s, in order. */
  function Fields(s: string): (r: seq<string>)
    ensures AllFields(r)
    decreases |s|
  {
    if s == [] then []
    else if IsSpace(s[0]) then Fields(s[1..])
    else
      var n := WordLen(s);
      [s[..n]] + Fields(s[n..])
  }

  /** strings.Join(ws, " "). */
  function Join(ws: seq<string>): string
  {
    if |ws| == 0 then ""
    else if |ws| == 1 then ws[0]
    else ws[0] + " " + Join(ws[1..])
  }

  /** The non-empty elements of ws, in order. */
  function NonEmpty(ws: seq<string>): seq<string>
  {
    if ws == [] then []
    else (if ws[0] == "" then [] else [ws[0]]) + NonEmpty(ws[1..])
  }

  /** The characters of s that are not white space, in order. */
  function RemoveSpaces(s: string): string
  {
    if s == [] then []
    else (if IsSpace(s[0]) then [] else [s[0]]) + RemoveSpaces(s[1..])
  }

  function Concat(ws: seq<string>): string
  {
    if ws == [] then [] else ws[0] + Concat(ws[1..])
  }

  /** strings.SplitN(s, " ", 2): the text before and after the first space
      character; None when there is none, that is, when the split has one part. */
  function SplitAtSpace(s: string): (r: Option<(string, string)>)
    ensures r.None? <==> ' ' !in s
    ensures r.Some? ==> s == r.value.0 + " " + r.value.1 && ' ' !in r.value.0
  {
    if s == [] then None
    else if s[0] == ' ' then Some(([], s[1..]))
    else
      match SplitAtSpace(s[1..])
      case None => None
      case Some(parts) =>
        assert s == [s[0]] + s[1..];
        Some(([s[0]] + parts.0, parts.1))
  }

  lemma {:induction false} WordLenOfWord(w: string, rest: string)
    requires NoSpace(w)
    requires rest == [] || IsSpace(rest[0])
    ensures WordLen(w + rest) == |w|
  {
    if w != [] {
      assert (w + rest)[1..] == w[1..] + rest;
      WordLenOfWord(w[1..], rest);
    } else {
      assert w + rest == rest;
    }
  }

  /** A word without white space followed by a separator (or nothing) is one field. */
  lemma FieldsOfWord(w: string, rest: string)
    requires NoSpace(w)
    requires rest == [] || IsSpace(rest[0])
    ensures Fields(w + rest) == (if w == [] then [] else [w]) + Fields(rest)
  {
    if w == [] {
      assert w + rest == rest;
    } else {
      WordLenOfWord(w, rest);
      assert (w + rest)[..|w|] == w;
      assert (w + rest)[|w|..] == rest;
    }
  }

  /** Joining words that hold no white space and splitting again gives back the
      non-empty words: the number of fields is the number of non-empty words. */
  lemma {:induction false} FieldsOfJoin(ws: seq<string>)
    ensures (forall i :: 0 <= i < |ws| ==> NoSpace(ws[i])) ==> Fields(Join(ws)) == NonEmpty(ws)
  {
    if forall i :: 0 <= i < |ws| ==> NoSpace(ws[i]) {
      if |ws| == 1 {
        FieldsOfWord(ws[0], []);
        assert ws[0] + [] == ws[0];
        assert ws[1..] == [];
      } else if |ws| >= 2 {
        var tail := " " + Join(ws[1..]);
        FieldsOfWord(ws[0], tail);
        assert ws[0] + " " + Join(ws[1..]) == ws[0] + tail;
        assert tail[1..] == Join(ws[1..]);
        assert Fields(tail) == Fields(Join(ws[1..]));
        assert forall i :: 0 <= i < |ws[1..]| ==> NoSpace(ws[1..][i]) by {
          forall i | 0 <= i < |ws[1..]| ensures NoSpace(ws[1..][i]) { assert ws[1..][i] == ws[i + 1]; }
        }
        FieldsOfJoin(ws[1..]);
      }
    }
  }

  lemma {:induction false} NonEmptyOfFields(ws: seq<string>)
    requires AllFields(ws)
    ensures NonEmpty(ws) == ws
  {
    if ws != [] {
      assert AllFields(ws[1..]) by {
        forall i | 0 <= i < |ws[1..]| ensures IsField(ws[1..][i]) { assert ws[1..][i] == ws[i + 1]; }
      }
      NonEmptyOfFields(ws[1..]);
    }
  }

  /** Encode/decode round trip: splitting the space-joined fields gives the fields back. */
  lemma FieldsJoinRoundTrip(ws: seq<string>)
    requires AllFields(ws)
    ensures Fields(Join(ws)) == ws
  {
    FieldsOfJoin(ws);
    NonEmptyOfFields(ws);
  }

  lemma {:induction false} RemoveSpacesAppend(a: string, b: string)
    ensures RemoveSpaces(a + b) == RemoveSpaces(a) + RemoveSpaces(b)
  {
    if a != [] {
      assert (a + b)[1..] == a[1..] + b;
      RemoveSpacesAppend(a[1..], b);
    } else {
      assert a + b == b;
    }
  }

  lemma {:induction false} RemoveSpacesOfWord(w: string)
    requires NoSpace(w)
    ensures RemoveSpaces(w) == w
  {
    if w != [] {
      RemoveSpacesOfWord(w[1..]);
    }
  }

  /** Fields loses nothing but white space: its fields, concatenated, are the
      non-space characters of s. */
  lemma {:induction false} FieldsKeepText(s: string)
    ensures Concat(Fields(s)) == RemoveSpaces(s)
    decreases |s|
  {
    if s != [] {
      if IsSpace(s[0]) {
        FieldsKeepText(s[1..]);
      } else {
        var n := WordLen(s);
        assert s == s[..n] + s[n..];
        RemoveSpacesAppend(s[..n], s[n..]);
        RemoveSpacesOfWord(s[..n]);
        FieldsKeepText(s[n..]);
        assert ([s[..n]] + Fields(s[n..]))[1..] == Fields(s[n..]);
      }
    }
  }

  // ---------------------------------------------------------------------------
  // Decimal formatting of integers (fmt's %d)

  predicate IsDigit(c: char) {
    '0' <= c <= '9'
  }

  function DigitChar(d: int): (c: char)
    requires 0 <= d < 10
    ensures IsDigit(c) && c as int - '0' as int == d
  {
    ('0' as int + d) as char
  }

  /** The decimal digits of n, most significant first, without leading zeros. */
  function Digits(n: nat): (s: string)
    ensures s != [] && forall i :: 0 <= i < |s| ==> IsDigit(s[i])
    ensures |s| > 1 ==> s[0] != '0'
    decreases n
  {
    if n < 10 then [DigitChar(n)] else Digits(n / 10) + [DigitChar(n % 10)]
  }

  /** The number a run of decimal digits denotes. */
  function DigitsValue(s: string): int
    decreases |s|
  {
    if s == [] then 0 else DigitsValue(s[..|s| - 1]) * 10 + (s[|s| - 1] as int - '0' as int)
  }

  /** %d: a minus sign for a negative number, then its digits. */
  function Decimal(n: int): (s: string)
    ensures '(' !in s && ')' !in s && ' ' !in s
  {
    if n < 0 then "-" + Digits(-n) else Digits(n)
  }

  /** Reading a decimal back: an optional minus sign and at least one digit. */
  function ParseDecimal(s: string): Option<int>
  {
    if s != [] && s[0] == '-' then
      if s[1..] != [] && forall i :: 1 <= i < |s| ==> IsDigit(s[i]) then Some(-DigitsValue(s[1..])) else None
    else if s != [] && forall i :: 0 <= i < |s| ==> IsDigit(s[i]) then Some(DigitsValue(s))
    else None
  }

  lemma {:induction false} DigitsValueOfDigits(n: nat)
    ensures DigitsValue(Digits(n)) == n
    decreases n
  {
    if n >= 10 {
      DigitsValueOfDigits(n / 10);
      var d := Digits(n / 10);
      assert (d + [DigitChar(n % 10)])[..|d|] == d;
    }
  }

  /** A run of digits reads back as the number it denotes. */
  lemma ParseDigits(d: string)
    requires d != [] && forall i :: 0 <= i < |d| ==> IsDigit(d[i])
    ensures ParseDecimal(d) == Some(DigitsValue(d))
  {
    assert IsDigit(d[0]);
  }

  /** A minus sign and a run of digits read back as the negated number. */
  lemma ParseNegativeDigits(d: string)
    requires d != [] && forall i :: 0 <= i < |d| ==> IsDigit(d[i])
    ensures ParseDecimal("-" + d) == Some(-DigitsValue(d))
  {
    var s := "-" + d;
    assert s[1..] == d;
    assert forall i :: 1 <= i < |s| ==> s[i] == d[i - 1];
  }

  /** Formatting then parsing gives the number back. */
  lemma DecimalRoundTrip(n: int)
    ensures ParseDecimal(Decimal(n)) == Some(n)
  {
    if n < 0 {
      var d := Digits(-n);
      assert Decimal(n) == "-" + d;
      assert DigitsValue(d) == -n by {
        DigitsValueOfDigits(-n);
      }
      ParseNegativeDigits(d);
    } else {
      var d := Digits(n);
      assert Decimal(n) == d;
      assert DigitsValue(d) == n by {
        DigitsValueOfDigits(n);
      }
      ParseDigits(d);
    }
  }

  /** The three parts of a concatenation are its slices at their lengths. */
  lemma ConcatSlices(a: string, b: string, c: string)
    ensures (a + b + c)[..|a|] == a
    ensures (a + b + c)[|a|..|a| + |b|] == b
    ensures (a + b + c)[|a| + |b|..] == c
  {
  }
}
