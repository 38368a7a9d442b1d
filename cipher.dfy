/** The encryption of one line, as a function of the tables, the wheel
    state at the start of the line and the line itself.  The engine's
    `Encrypt` method is proved to compute it; the lemmas here say what it
    computes. */
module Cipher {
  import opened Wheels
  import opened Tables

  /** How a line ends: with its output, the wheels after its last character
      and the number of letters substituted; or with the first failed lookup
      and the wheels as they were at the failing letter. */
  datatype Outcome =
    | Done(output: string, wheels: seq<int>, count: nat)
    | Failed(error: LookupError, wheels: seq<int>)

  /** `p` put in front of the output, if there is one. */
  function PrependAll(p: string, o: Outcome): Outcome {
    match o
    case Done(s, w, n) => Done(p + s, w, n)
    case Failed(_, _) => o
  }

  /** The substitution count after character `ch`: it rises on a lowercase
      letter only. */
  function Tick(ch: char, count: nat): (n: nat)
    ensures count <= n <= count + 1
    ensures n == count + 1 <==> IsLower(ch)
  {
    if IsLower(ch) then count + 1 else count
  }

  /** The number of lowercase letters in `s`. */
  function CountLower(s: string): (n: nat)
    ensures n <= |s|
  {
    if s == [] then 0 else (if IsLower(s[0]) then 1 else 0) + CountLower(s[1..])
  }

  /** The counts passed to the wheel advance, one per character of `s`,
      starting from `count`. */
  function UpdateCounts(s: string, count: nat): (r: seq<nat>)
    ensures |r| == |s|
  {
    if s == [] then [] else [Tick(s[0], count)] + UpdateCounts(s[1..], Tick(s[0], count))
  }

  /** The wheels after the characters of `s` have each advanced them. */
  function WheelsAfter(w: seq<int>, s: string, count: nat): (r: seq<int>)
    requires HasWheels(w)
    ensures |r| == |w|
  {
    AdvanceAll(w, UpdateCounts(s, count))
  }

  /** One line, from wheels `w` and substitution count `count`.  A character
      that is not lowercase is copied and advances the wheels with the
      current count; a letter is substituted at the step of the current
      offset, then the count rises and the wheels advance with the new count. */
  function Run(t: Tables, w: seq<int>, msg: string, count: nat): (o: Outcome)
    requires HasWheels(w)
    ensures o.Done? ==> |o.output| == |msg|
    ensures o.Done? ==> o.count == count + CountLower(msg)
    decreases |msg|
  {
    if msg == [] then Done([], w, count)
    else
      var ch := msg[0];
      var n := Tick(ch, count);
      if !IsLower(ch) then PrependAll([ch], Run(t, Advance(w, n), msg[1..], n))
      else
        match Substitute(t, ch, Step(Offset(w)))
        case Err(e) => Failed(e, w)
        case Ok(c3) => PrependAll([c3], Run(t, Advance(w, n), msg[1..], n))
  }

  /** One character of the rest of a line, as the engine's loop takes it. */
  lemma RunStep(t: Tables, w: seq<int>, msg: string, count: nat, k: nat)
    requires HasWheels(w) && k < |msg|
    ensures Run(t, w, msg[k..], count) ==
      if !IsLower(msg[k]) then PrependAll([msg[k]], Run(t, Advance(w, count), msg[k + 1..], count))
      else match Substitute(t, msg[k], Step(Offset(w)))
        case Err(e) => Failed(e, w)
        case Ok(c) => PrependAll([c], Run(t, Advance(w, count + 1), msg[k + 1..], count + 1))
  {
    assert msg[k..][0] == msg[k] && msg[k..][1..] == msg[k + 1..];
  }

  lemma PrependAllTwice(p: string, q: string, o: Outcome)
    ensures PrependAll(p, PrependAll(q, o)) == PrependAll(p + q, o)
  {
  }

  /** Walking a nonempty string: the first character's advance, then the rest. */
  lemma WheelsAfterCons(w: seq<int>, s: string, count: nat)
    requires HasWheels(w) && s != []
    ensures WheelsAfter(w, s, count) == WheelsAfter(Advance(w, Tick(s[0], count)), s[1..], Tick(s[0], count))
  {
  }

  lemma {:induction false} CountLowerAppend(s: string, c: char)
    ensures CountLower(s + [c]) == CountLower(s) + (if IsLower(c) then 1 else 0)
    decreases |s|
  {
    if s != [] {
      assert (s + [c])[0] == s[0] && (s + [c])[1..] == s[1..] + [c];
      CountLowerAppend(s[1..], c);
    } else {
      assert [c][1..] == [];
    }
  }

  /** The count the wheels are advanced with at character k: the number of
      letters before k, plus one when character k is itself a letter. */
  lemma {:induction false} UpdateCountAt(s: string, count: nat, k: nat)
    requires k < |s|
    ensures UpdateCounts(s, count)[k] == count + CountLower(s[..k]) + (if IsLower(s[k]) then 1 else 0)
    decreases k
  {
    if k > 0 {
      UpdateCountAt(s[1..], Tick(s[0], count), k - 1);
      assert s[..k][0] == s[0] && s[..k][1..] == s[1..][..k - 1];
    } else {
      assert s[..0] == [];
    }
  }

  /** A line that completes leaves the wheels its characters' advances
      produce. */
  lemma {:induction false} RunWheels(t: Tables, w: seq<int>, msg: string, count: nat)
    requires HasWheels(w) && Run(t, w, msg, count).Done?
    ensures Run(t, w, msg, count).wheels == WheelsAfter(w, msg, count)
    decreases |msg|
  {
    if msg != [] {
      var n := Tick(msg[0], count);
      RunWheels(t, Advance(w, n), msg[1..], n);
      WheelsAfterCons(w, msg, count);
    }
  }

  /** What the line does at position k, from the wheels its first k
      characters left: a non-lowercase character is copied, a letter is
      substituted at the step of the offset there. */
  lemma {:induction false} RunAt(t: Tables, w: seq<int>, msg: string, count: nat, k: nat)
    requires HasWheels(w) && Run(t, w, msg, count).Done? && k < |msg|
    ensures !IsLower(msg[k]) ==> Run(t, w, msg, count).output[k] == msg[k]
    ensures IsLower(msg[k]) ==>
      Substitute(t, msg[k], Step(Offset(WheelsAfter(w, msg[..k], count)))) == Ok(Run(t, w, msg, count).output[k])
    decreases k
  {
    var n := Tick(msg[0], count);
    var w' := Advance(w, n);
    if k == 0 {
      assert msg[..0] == [];
    } else {
      var c := if IsLower(msg[0]) then Substitute(t, msg[0], Step(Offset(w))).value else msg[0];
      var rest := Run(t, w', msg[1..], n);
      assert Run(t, w, msg, count) == PrependAll([c], rest);
      RunAt(t, w', msg[1..], n, k - 1);
      assert Run(t, w, msg, count).output[k] == rest.output[k - 1];
      assert msg[1..][k - 1] == msg[k];
      assert msg[..k][0] == msg[0] && msg[..k][1..] == msg[1..][..k - 1];
      WheelsAfterCons(w, msg[..k], count);
      assert WheelsAfter(w, msg[..k], count) == WheelsAfter(w', msg[1..][..k - 1], n);
    }
  }

  /** A failed line fails at a letter k whose substitution fails with that
      error; the characters before k run cleanly, and the wheels are the
      ones they left. */
  lemma {:induction false} RunFailure(t: Tables, w: seq<int>, msg: string, count: nat) returns (k: nat)
    requires HasWheels(w) && Run(t, w, msg, count).Failed?
    ensures k < |msg| && IsLower(msg[k])
    ensures Run(t, w, msg[..k], count).Done?
    ensures Run(t, w, msg, count).wheels == WheelsAfter(w, msg[..k], count)
    ensures Substitute(t, msg[k], Step(Offset(WheelsAfter(w, msg[..k], count)))) == Err(Run(t, w, msg, count).error)
    decreases |msg|
  {
    var n := Tick(msg[0], count);
    var w' := Advance(w, n);
    if IsLower(msg[0]) && Substitute(t, msg[0], Step(Offset(w))).Err? {
      k := 0;
      assert msg[..0] == [];
    } else {
      var k' := RunFailure(t, w', msg[1..], n);
      k := k' + 1;
      assert msg[..k][0] == msg[0] && msg[..k][1..] == msg[1..][..k'];
      WheelsAfterCons(w, msg[..k], count);
    }
  }

  /** A lowercase letter that the letter -> number map lacks makes the line
      fail; it is never passed through. */
  lemma {:induction false} UnknownLetterFails(t: Tables, w: seq<int>, msg: string, count: nat, k: nat)
    requires HasWheels(w) && k < |msg|
    requires IsLower(msg[k]) && msg[k] !in t.hashMap
    ensures Run(t, w, msg, count).Failed?
    decreases k
  {
    if k > 0 {
      var n := Tick(msg[0], count);
      UnknownLetterFails(t, Advance(w, n), msg[1..], n, k - 1);
    }
  }

  /** On a total configuration no lookup fails, whatever the reflector does
      within the letters. */
  lemma {:induction false} RunTotal(t: Tables, w: seq<int>, msg: string, count: nat)
    requires HasWheels(w) && Total(t)
    ensures Run(t, w, msg, count).Done?
    decreases |msg|
  {
    if msg != [] {
      var n := Tick(msg[0], count);
      if IsLower(msg[0]) {
        SubstituteTotal(t, msg[0], Step(Offset(w)));
      }
      RunTotal(t, Advance(w, n), msg[1..], n);
    }
  }

  /** On a well-formed configuration encryption undoes itself: encrypting the
      output from the same wheels gives back the line, and leaves the wheels
      and the count exactly as the first pass did. */
  lemma {:induction false} RunRoundTrip(t: Tables, w: seq<int>, msg: string, count: nat)
    requires HasWheels(w) && WellFormed(t)
    ensures Run(t, w, msg, count).Done?
    ensures Run(t, w, Run(t, w, msg, count).output, count)
         == Done(msg, Run(t, w, msg, count).wheels, Run(t, w, msg, count).count)
    decreases |msg|
  {
    RunTotal(t, w, msg, count);
    if msg != [] {
      var ch := msg[0];
      var n := Tick(ch, count);
      var w' := Advance(w, n);
      RunRoundTrip(t, w', msg[1..], n);
      var rest := Run(t, w', msg[1..], n);
      var c := if IsLower(ch) then Substitute(t, ch, Step(Offset(w))).value else ch;
      if IsLower(ch) {
        SubstituteReciprocal(t, ch, Step(Offset(w)));
        SubstituteTotal(t, ch, Step(Offset(w)));
      }
      var out := Run(t, w, msg, count).output;
      assert out == [c] + rest.output;
      assert out[0] == c && out[1..] == rest.output;
      assert Tick(c, count) == n;
      assert [ch] + msg[1..] == msg;
    }
  }

  // A fixed configuration: letters numbered in order, with a reflector given
  // as a function of the letter.


  function Alphabet(): map<char, int> {
    map c | IsLower(c) :: c as int - 'a' as int
  }

  function LetterOf(i: int): char
    requires 0 <= i < 26
  {
    ('a' as int + i) as char
  }

  function AlphabetInverse(): map<int, char> {
    map i | 0 <= i < 26 :: LetterOf(i)
  }

  /** The reflector that swaps 'a' and 'b' and fixes every other letter. */
  function SwapAB(): map<char, char> {
    map c | IsLower(c) :: if c == 'a' then 'b' else if c == 'b' then 'a' else c
  }

  /** The reflector that cycles 'a' -> 'b' -> 'c' -> 'a' and fixes the rest. */
  function CycleABC(): map<char, char> {
    map c | IsLower(c) :: if c == 'a' then 'b' else if c == 'b' then 'c' else if c == 'c' then 'a' else c
  }

  /** The letters numbered in order, reflected by the given reflector. */
  function InOrder(reflector: map<char, char>): Tables {
    Tables(Alphabet(), AlphabetInverse(), reflector)
  }

  /** Substitution on the in-order tables: forward by `step` lands on a
      letter the reflector sends to `c2`, and back from `c2` by `step`. */
  lemma InOrderSubstitute(reflector: map<char, char>, ch: char, step: int, c2: char)
    requires IsLower(ch) && IsLower(c2)
    requires LetterOf((ch as int - 'a' as int + step) % 26) in reflector
    requires reflector[LetterOf((ch as int - 'a' as int + step) % 26)] == c2
    ensures Substitute(InOrder(reflector), ch, step) == Ok(LetterOf((c2 as int - 'a' as int - step) % 26))
  {
    var i := (ch as int - 'a' as int + step) % 26;
    assert ch in Alphabet() && Alphabet()[ch] == ch as int - 'a' as int;
    assert i in AlphabetInverse() && AlphabetInverse()[i] == LetterOf(i);
    var c1 := LetterOf(i);
    assert c2 in Alphabet() && Alphabet()[c2] == c2 as int - 'a' as int;
    var j := (c2 as int - 'a' as int - step) % 26;
    assert j in AlphabetInverse() && AlphabetInverse()[j] == LetterOf(j);
  }

  /** The lookups behind the "ab" trace: 'a' at step 2 goes 0 -> 2 ('c'),
      reflects to 'c' and comes back to 'a'. */
  lemma SwapALookup()
    ensures Substitute(InOrder(SwapAB()), 'a', 2) == Ok('a')
  {
    assert LetterOf(2) == 'c' && SwapAB()['c'] == 'c';
    InOrderSubstitute(SwapAB(), 'a', 2, 'c');
    assert LetterOf(0) == 'a';
  }

  /** 'b' at step 4 goes 1 -> 5 ('f'), reflects to 'f' and comes back to 'b'. */
  lemma SwapBLookup()
    ensures Substitute(InOrder(SwapAB()), 'b', 4) == Ok('b')
  {
    assert LetterOf(5) == 'f' && SwapAB()['f'] == 'f';
    InOrderSubstitute(SwapAB(), 'b', 4, 'f');
    assert LetterOf(1) == 'b';
  }

  /** Hand-traced line "ab" from wheels [1, 1, 1]: both letters come back as
      themselves, and the wheels advance with counts 1 and 2. */
  lemma SwapABExample()
    ensures Run(InOrder(SwapAB()), [1, 1, 1], "ab", 0) == Done("ab", [3, 0, 0], 2)
  {
    SwapALookup();
    SwapBLookup();
    TraceAB(InOrder(SwapAB()));
  }

  /** The wheel side of the trace of "ab" from [1, 1, 1], for any tables on
      which 'a' at step 2 and 'b' at step 4 substitute to themselves. */
  lemma TraceAB(t: Tables)
    requires Substitute(t, 'a', 2) == Ok('a') && Substitute(t, 'b', 4) == Ok('b')
    ensures Run(t, [1, 1, 1], "ab", 0) == Done("ab", [3, 0, 0], 2)
  {
    assert Run(t, [2, 0, 0], "b", 1) == Done("b", [3, 0, 0], 2) by {
      assert Offset([2, 0, 0]) == 4 && Advance([2, 0, 0], 2) == [3, 0, 0];
      assert "b"[1..] == "";
    }
    assert Offset([1, 1, 1]) == 2 && Advance([1, 1, 1], 1) == [2, 0, 0];
    assert "ab"[0] == 'a' && "ab"[1..] == "b";
  }

  /** A line of one lowercase letter: its substitution at the step of the
      starting wheels, one advance with count 1. */
  lemma OneLetterLine(t: Tables, w: seq<int>, ch: char, c: char)
    requires HasWheels(w) && IsLower(ch)
    requires Substitute(t, ch, Step(Offset(w))) == Ok(c)
    ensures Run(t, w, [ch], 0) == Done([c], Advance(w, 1), 1)
  {
    assert [ch][1..] == [];
  }

  /** 'a' at step 1 goes 0 -> 1 ('b'), reflects to 'a' and comes back
      0 -> 25 ('z'). */
  lemma ZeroOffsetLookup()
    ensures Substitute(InOrder(SwapAB()), 'a', 1) == Ok('z')
  {
    assert LetterOf(1) == 'b' && SwapAB()['b'] == 'a';
    InOrderSubstitute(SwapAB(), 'a', 1, 'a');
    assert LetterOf(25) == 'z';
  }

  /** A zero offset is applied as a step of 1: from wheels [1, 2, 0] the
      offset is 0, and "a" encrypts to "z". */
  lemma ZeroOffsetExample()
    ensures Offset([1, 2, 0]) == 0
    ensures Run(InOrder(SwapAB()), [1, 2, 0], "a", 0) == Done("z", [2, 1, 0], 1)
  {
    ZeroOffsetLookup();
    OneLetterLine(InOrder(SwapAB()), [1, 2, 0], 'a', 'z');
    assert Advance([1, 2, 0], 1) == [2, 1, 0];
  }

  /** With the cycling reflector, 'a' at step 2 goes 0 -> 2 ('c'), reflects
      to 'a' and comes back 0 -> 24 ('y'); 'y' goes 24 -> 0 ('a'), reflects
      to 'b' and comes back 1 -> 25 ('z'). */
  lemma CycleABCLookups()
    ensures Substitute(InOrder(CycleABC()), 'a', 2) == Ok('y')
    ensures Substitute(InOrder(CycleABC()), 'y', 2) == Ok('z')
  {
    assert LetterOf(2) == 'c' && CycleABC()['c'] == 'a';
    InOrderSubstitute(CycleABC(), 'a', 2, 'a');
    assert LetterOf(24) == 'y';
    assert LetterOf(0) == 'a' && CycleABC()['a'] == 'b';
    InOrderSubstitute(CycleABC(), 'y', 2, 'b');
    assert LetterOf(25) == 'z';
  }

  /** With a reflector that is not an involution, encrypting twice does not
      give the line back: "a" encrypts to "y", and "y" to "z". */
  lemma NoRoundTripWithoutInvolution()
    ensures Run(InOrder(CycleABC()), [1, 1, 1], "a", 0) == Done("y", [2, 0, 0], 1)
    ensures Run(InOrder(CycleABC()), [1, 1, 1], "y", 0) == Done("z", [2, 0, 0], 1)
  {
    CycleABCLookups();
    TraceAY(InOrder(CycleABC()));
  }

  /** The letter a character is numbered by, and back. */
  lemma LetterNumber(c: char)
    requires IsLower(c)
    ensures LetterOf(c as int - 'a' as int) == c
  {
  }

  lemma NumberLetter(i: int)
    requires 0 <= i < 26
    ensures IsLower(LetterOf(i)) && LetterOf(i) as int - 'a' as int == i
  {
  }

  /** The letters numbered in order form a numbering of the letters. */
  lemma InOrderNumbering(reflector: map<char, char>)
    ensures Numbering(InOrder(reflector))
  {
    var h, inv := Alphabet(), AlphabetInverse();
    forall c | IsLower(c)
      ensures c in h && 0 <= h[c] < 26 && inv[h[c]] == c
    {
      LetterNumber(c);
    }
    forall i | i in inv
      ensures inv[i] in h && h[inv[i]] == i
    {
      NumberLetter(i);
    }
  }

  /** The letters numbered in order are total with any reflector that
      sends each letter to a letter. */
  lemma InOrderTotal(reflector: map<char, char>)
    requires forall c :: IsLower(c) ==> c in reflector && IsLower(reflector[c])
    ensures Total(InOrder(reflector))
  {
    InOrderNumbering(reflector);
  }

  /** The cycling reflector sends each letter to a letter. */
  lemma CycleABCLetters()
    ensures forall c :: IsLower(c) ==> c in CycleABC() && IsLower(CycleABC()[c])
  {
  }

  /** The cycling reflector is not an involution: 'a' goes to 'b' and 'b' to 'c'. */
  lemma CycleABCNotWellFormed()
    ensures !WellFormed(InOrder(CycleABC()))
  {
    assert 'a' in Alphabet() && CycleABC()['a'] == 'b' && CycleABC()['b'] == 'c';
  }

  /** The cycling reflector is not an involution, yet every lookup on it
      succeeds: every line completes, from any wheels. */
  lemma CycleABCCompletes(w: seq<int>, msg: string, count: nat)
    requires HasWheels(w)
    ensures Total(InOrder(CycleABC())) && !WellFormed(InOrder(CycleABC()))
    ensures Run(InOrder(CycleABC()), w, msg, count).Done?
  {
    CycleABCLetters();
    InOrderTotal(CycleABC());
    CycleABCNotWellFormed();
    RunTotal(InOrder(CycleABC()), w, msg, count);
  }

  /** The wheel side of the lines "a" and "y" from [1, 1, 1], for any tables
      on which 'a' and 'y' at step 2 substitute to 'y' and 'z'. */
  lemma TraceAY(t: Tables)
    requires Substitute(t, 'a', 2) == Ok('y') && Substitute(t, 'y', 2) == Ok('z')
    ensures Run(t, [1, 1, 1], "a", 0) == Done("y", [2, 0, 0], 1)
    ensures Run(t, [1, 1, 1], "y", 0) == Done("z", [2, 0, 0], 1)
  {
    assert Offset([1, 1, 1]) == 2 && Advance([1, 1, 1], 1) == [2, 0, 0];
    OneLetterLine(t, [1, 1, 1], 'a', 'y');
    OneLetterLine(t, [1, 1, 1], 'y', 'z');
  }
}
