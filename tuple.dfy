/**
 * core/tuple.go: TextTuple, the fixed-length window of words that serves as a
 * Markov chain prefix. The words live in an array that Shift updates in place;
 * String joins them with single spaces, which is also the persisted encoding.
 */
module Tuple {
  import opened GoStrings

  /** core.Direction. */
  datatype Direction = Forward | Backward

  /** The words of a window after one Shift of `word` in direction d. */
  function Shifted(s: seq<string>, word: string, d: Direction): (r: seq<string>)
    requires |s| >= 1
    ensures |r| == |s|
  {
    match d
    case Forward => s[1..] + [word]
    case Backward => [word] + s[..|s| - 1]
  }

  /** The words of a window after shifting in each of ws, first to last. */
  function ShiftAll(s: seq<string>, ws: seq<string>, d: Direction): (r: seq<string>)
    requires |s| >= 1
    ensures |r| == |s|
    decreases |ws|
  {
    if ws == [] then s else ShiftAll(Shifted(s, ws[0], d), ws[1..], d)
  }

  function Reverse(s: seq<string>): (r: seq<string>)
    ensures |r| == |s|
  {
    if s == [] then [] else Reverse(s[1..]) + [s[0]]
  }

  /** Shifting one more word is one more step of ShiftAll. */
  lemma {:induction false} ShiftAllSnoc(s: seq<string>, ws: seq<string>, w: string, d: Direction)
    requires |s| >= 1
    ensures ShiftAll(s, ws + [w], d) == Shifted(ShiftAll(s, ws, d), w, d)
    decreases |ws|
  {
    if ws == [] {
      assert ([] + [w])[1..] == [];
    } else {
      assert (ws + [w])[0] == ws[0];
      assert (ws + [w])[1..] == ws[1..] + [w];
      ShiftAllSnoc(Shifted(s, ws[0], d), ws[1..], w, d);
    }
  }

  /** Shifting the words of ws up to k, then word k, is shifting the words up to k+1. */
  lemma ShiftAllTake(s: seq<string>, ws: seq<string>, k: nat, d: Direction)
    requires |s| >= 1 && k < |ws|
    ensures ShiftAll(s, ws[..k + 1], d) == Shifted(ShiftAll(s, ws[..k], d), ws[k], d)
  {
    assert ws[..k + 1] == ws[..k] + [ws[k]];
    ShiftAllSnoc(s, ws[..k], ws[k], d);
  }

  /** Forward shifts keep the last |s| words of the old window followed by the new words. */
  lemma {:induction false} ShiftAllForward(s: seq<string>, ws: seq<string>)
    requires |s| >= 1
    ensures ShiftAll(s, ws, Forward) == (s + ws)[|ws|..]
    decreases |ws|
  {
    if ws == [] {
      assert s + ws == s;
    } else {
      var s' := Shifted(s, ws[0], Forward);
      ShiftAllForward(s', ws[1..]);
      assert s' + ws[1..] == (s + ws)[1..];
    }
  }

  /** After at least |s| forward shifts the window is the last |s| words shifted
      in, whatever it held before. */
  lemma ForwardShiftsForget(s: seq<string>, ws: seq<string>)
    requires |s| >= 1 && |ws| >= |s|
    ensures ShiftAll(s, ws, Forward) == ws[|ws| - |s|..]
  {
    ShiftAllForward(s, ws);
    assert (s + ws)[|ws|..] == ws[|ws| - |s|..];
  }

  lemma {:induction false} ReverseAppend(a: seq<string>, b: seq<string>)
    ensures Reverse(a + b) == Reverse(b) + Reverse(a)
  {
    if a == [] {
      assert a + b == b;
    } else {
      assert (a + b)[1..] == a[1..] + b;
      ReverseAppend(a[1..], b);
    }
  }

  /** Backward shifts put the new words, most recent first, in front of the old window. */
  lemma {:induction false} ShiftAllBackward(s: seq<string>, ws: seq<string>)
    requires |s| >= 1
    ensures ShiftAll(s, ws, Backward) == (Reverse(ws) + s)[..|s|]
    decreases |ws|
  {
    if ws == [] {
    } else {
      var s' := Shifted(s, ws[0], Backward);
      ShiftAllBackward(s', ws[1..]);
      var r := Reverse(ws[1..]);
      assert Reverse(ws) == r + [ws[0]];
      assert (r + s')[..|s|] == (r + [ws[0]] + s)[..|s|];
    }
  }

  /** After at least |s| backward shifts the window is the last |s| words shifted
      in, in reverse order. */
  lemma BackwardShiftsForget(s: seq<string>, ws: seq<string>)
    requires |s| >= 1 && |ws| >= |s|
    ensures ShiftAll(s, ws, Backward) == Reverse(ws[|ws| - |s|..])
  {
    var k := |ws| - |s|;
    ShiftAllBackward(s, ws);
    assert ws == ws[..k] + ws[k..];
    ReverseAppend(ws[..k], ws[k..]);
    assert (Reverse(ws) + s)[..|s|] == Reverse(ws[k..]);
  }

  /** core.TextTuple: the words e and their number, order. */
  class TextTuple {
    var e: array<string>
    var order: int

    /** Every constructor keeps order equal to the number of words. */
    ghost predicate Valid()
      reads this
    {
      e.Length == order
    }

    /** NewTextTuple(order): `order` empty words. */
    constructor (order: nat)
      ensures Valid() && fresh(e)
      ensures this.order == order && e[..] == seq(order, _ => "")
    {
      e := new string[order](_ => "");
      this.order := order;
    }

    /** NewTupleFromSlice(s): wraps s itself, without copying it. */
    constructor FromSlice(s: array<string>)
      ensures Valid() && e == s && order == s.Length
    {
      e := s;
      order := s.Length;
    }

    /** Copy: a new tuple of the same order holding the same words in an array of its own. */
    method Copy() returns (t: TextTuple)
      requires Valid()
      ensures fresh(t) && fresh(t.e) && t.Valid()
      ensures t.order == order && t.e[..] == e[..]
    {
      t := new TextTuple(order);
      forall i | 0 <= i < e.Length {
        t.e[i] := e[i];
      }
    }

    /** Shift: slide `word` in at the end (Forward) or at the front (Backward).
        The Go code indexes len(e)-1 or 0, so the tuple must hold a word. */
    method Shift(word: string, d: Direction)
      requires e.Length >= 1
      modifies e
      ensures e[..] == Shifted(old(e[..]), word, d)
    {
      var n := e.Length;
      match d
      case Forward =>
        forall i | 0 <= i < n - 1 {
          e[i] := e[i + 1];
        }
        e[n - 1] := word;
      case Backward =>
        forall i | 1 <= i < n {
          e[i] := e[i - 1];
        }
        e[0] := word;
    }

    /** String: the words joined by single spaces (StringFields says what
        reading it back gives). */
    function String(): string
      reads this, e
    {
      Join(e[..])
    }

    /** MarshalBinary: the bytes of String (the error result is always nil). */
    function MarshalBinary(): (p: string)
      reads this, e
      ensures p == Join(e[..])
    {
      String()
    }

    /** MarshalText: the same bytes as MarshalBinary, from which reading the
        fields back gives the non-empty words when no word holds white space. */
    function MarshalText(): (p: string)
      reads this, e
      ensures p == Join(e[..])
      ensures (forall i :: 0 <= i < e.Length ==> NoSpace(e[i])) ==> Fields(p) == NonEmpty(e[..])
    {
      FieldsOfJoin(e[..]);
      MarshalBinary()
    }

    /** UnmarshalBinary: replaces the words by the white-space separated fields of p,
        in a new array, and the order by their number (the error result is always nil). */
    method UnmarshalBinary(p: string)
      modifies this
      ensures Valid() && fresh(e)
      ensures e[..] == Fields(p) && order == |Fields(p)|
    {
      var f := Fields(p);
      var tt := new TextTuple(|f|);
      for i := 0 to |f|
        invariant fresh(tt.e) && tt.Valid() && tt.order == |f|
        invariant forall j :: 0 <= j < i ==> tt.e[j] == f[j]
      {
        tt.e[i] := f[i];
      }
      e := tt.e;
      order := tt.order;
    }

    /** Order: the number of words. */
    function Order(): (n: int)
      reads this
      requires Valid()
      ensures n == e.Length
    {
      order
    }

    /** Elements: the array of words itself (not a copy). */
    function Elements(): (a: array<string>)
      reads this
      requires Valid()
      ensures a == e && a.Length == Order()
    {
      e
    }
  }

  /** When no word of the tuple holds white space, the fields of its String
      are exactly its non-empty words. */
  lemma StringFields(t: TextTuple)
    requires forall i :: 0 <= i < t.e.Length ==> NoSpace(t.e[i])
    ensures Fields(t.String()) == NonEmpty(t.e[..])
  {
    FieldsOfJoin(t.e[..]);
  }

  /** Decoding the encoding of a tuple whose words are all fields reproduces its
      words and order. */
  method MarshalRoundTrip(t: TextTuple) returns (u: TextTuple)
    requires t.Valid() && AllFields(t.e[..])
    ensures u.Valid() && u.e[..] == t.e[..] && u.order == t.order
  {
    var p := t.MarshalBinary();
    u := new TextTuple(0);
    u.UnmarshalBinary(p);
    FieldsJoinRoundTrip(t.e[..]);
  }

  /** A copy is independent of its original: shifting the original leaves the
      copy holding the words from before the shift. */
  method CopyThenShift(t: TextTuple, word: string, d: Direction) returns (c: TextTuple)
    requires t.Valid() && t.e.Length >= 1
    modifies t.e
    ensures fresh(c) && fresh(c.e) && c.Valid()
    ensures c.e[..] == old(t.e[..])
    ensures t.e[..] == Shifted(old(t.e[..]), word, d)
  {
    c := t.Copy();
    t.Shift(word, d);
  }

  /** Shifts each of words into t in turn. */
  method ShiftWords(t: TextTuple, words: seq<string>, d: Direction)
    requires t.e.Length >= 1
    modifies t.e
    ensures t.e[..] == ShiftAll(old(t.e[..]), words, d)
  {
    for i := 0 to |words|
      invariant t.e[..] == ShiftAll(old(t.e[..]), words[..i], d)
    {
      ShiftAllTake(old(t.e[..]), words, i, d);
      t.Shift(words[i], d);
    }
    assert words[..|words|] == words;
  }

  /** The text checkPrefix compares: the MarshalText of t. */
  method MarshalledText(t: TextTuple) returns (s: string)
    ensures s == Join(t.e[..])
  {
    s := t.MarshalText();
  }

  /** The forward scenario of TestPrefixForward, for any four words (the test
      uses foo, bar, baz and quux): three shifts into an empty order-3 tuple,
      one more, then the first three again. */
  method ForwardScenario(a: string, b: string, c: string, d: string) returns (first: string, second: string, third: string)
    ensures first == Join([a, b, c]) && second == Join([b, c, d]) && third == first
    ensures first == a + " " + b + " " + c && second == b + " " + c + " " + d
  {
    JoinThree(a, b, c);
    JoinThree(b, c, d);
    var p := new TextTuple(3);
    ghost var empty := p.e[..];
    var words := [a, b, c];
    assert words[0..] == words;
    ShiftWords(p, words, Forward);
    ForwardShiftsForget(empty, words);
    assert p.e[..] == words;
    first := MarshalledText(p);
    p.Shift(d, Forward);
    assert p.e[..] == [b, c, d];
    second := MarshalledText(p);
    ghost var before := p.e[..];
    ShiftWords(p, words, Forward);
    ForwardShiftsForget(before, words);
    assert p.e[..] == words;
    third := MarshalledText(p);
  }

  /** The backward scenario of TestPrefixBackward: the mirror image. */
  method BackwardScenario(a: string, b: string, c: string, d: string) returns (first: string, second: string, third: string)
    ensures first == Join([c, b, a]) && second == Join([d, c, b]) && third == first
    ensures first == c + " " + b + " " + a && second == d + " " + c + " " + b
  {
    JoinThree(c, b, a);
    JoinThree(d, c, b);
    var p := new TextTuple(3);
    ghost var empty := p.e[..];
    var words := [a, b, c];
    assert words[0..] == words;
    ShiftWords(p, words, Backward);
    BackwardShiftsForget(empty, words);
    ReverseThree(a, b, c);
    assert p.e[..] == [c, b, a];
    first := MarshalledText(p);
    p.Shift(d, Backward);
    assert p.e[..] == [d, c, b];
    second := MarshalledText(p);
    ghost var before := p.e[..];
    ShiftWords(p, words, Backward);
    BackwardShiftsForget(before, words);
    assert p.e[..] == [c, b, a];
    third := MarshalledText(p);
  }

  /** Three words joined: the text the tests compare against. */
  lemma JoinThree(a: string, b: string, c: string)
    ensures Join([a, b, c]) == a + " " + b + " " + c
  {
    assert [b, c][1..] == [c];
    assert Join([b, c]) == b + " " + c;
    assert [a, b, c][1..] == [b, c];
  }

  lemma ReverseThree(a: string, b: string, c: string)
    ensures Reverse([a, b, c]) == [c, b, a]
  {
    assert [c][1..] == [];
    assert Reverse([c]) == [c];
    assert [b, c][1..] == [c];
    assert Reverse([b, c]) == [c, b];
    assert [a, b, c][1..] == [b, c];
  }
}
