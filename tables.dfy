/** The substitution tables of the cipher: the letter -> number map, its
    derived inverse, and the reflector, together with the substitution of one
    lowercase letter at a given step. */
module Tables {

  /** The characters the cipher substitutes; every other character passes
      through.  Python's `str.islower` is restricted here to 'a'..'z'. */
  predicate IsLower(c: char): (b: bool)
    ensures b ==> 0 <= c as int - 'a' as int < 26
  {
    'a' <= c <= 'z'
  }

  /** A failed dictionary lookup (Python's KeyError), with the missing key. */
  datatype LookupError =
    | MissingLetter(letter: char)        // a key absent from the letter -> number map
    | MissingNumber(number: int)         // a number absent from the inverse map
    | MissingReflection(letter: char)    // a key absent from the reflector map

  datatype Result<+T> = Ok(value: T) | Err(error: LookupError)

  /** The three maps the engine consults. */
  datatype Tables = Tables(
    hashMap: map<char, int>,
    invHashMap: map<int, char>,
    reflectorMap: map<char, char>)

  /** `order` is the iteration order of the dictionary `m`: each key once. */
  ghost predicate IsKeyOrder(m: map<char, int>, order: seq<char>) {
    && (forall i, j :: 0 <= i < j < |order| ==> order[i] != order[j])
    && (forall c :: c in m <==> c in order)
  }

  /** The inverse `{v: k for k, v in m.items()}`, built by visiting the keys
      in `order`; a later key overwrites an earlier one with the same number. */
  function Inverse(m: map<char, int>, order: seq<char>): (r: map<int, char>)
    requires forall c :: c in order ==> c in m
    ensures |r| <= |order|
    ensures order != [] ==> m[order[|order| - 1]] in r && r[m[order[|order| - 1]]] == order[|order| - 1]
    decreases |order|
  {
    if order == [] then map[]
    else
      var last := order[|order| - 1];
      var prev := order[..|order| - 1];
      assert forall c :: c in prev ==> c in order;
      Inverse(m, prev)[m[last] := last]
  }

  /** The keys of the inverse are exactly the numbers of the visited letters. */
  lemma {:induction false} InverseKeys(m: map<char, int>, order: seq<char>)
    requires forall c :: c in order ==> c in m
    ensures forall i :: i in Inverse(m, order) <==> exists c :: c in order && m[c] == i
    decreases |order|
  {
    if order != [] {
      var prev := order[..|order| - 1];
      assert forall c :: c in prev ==> c in order;
      assert order == prev + [order[|order| - 1]];
      InverseKeys(m, prev);
    }
  }

  /** Each number of the inverse goes back to a visited letter that carries it. */
  lemma {:induction false} InversePreimage(m: map<char, int>, order: seq<char>)
    requires forall c :: c in order ==> c in m
    ensures forall i :: i in Inverse(m, order) ==> Inverse(m, order)[i] in order && m[Inverse(m, order)[i]] == i
    decreases |order|
  {
    if order != [] {
      var prev := order[..|order| - 1];
      assert forall c :: c in prev ==> c in order;
      InversePreimage(m, prev);
    }
  }

  /** Last wins: a letter followed later in the order by another letter with
      the same number is not what the inverse gives for that number. */
  lemma {:induction false} InverseLastWins(m: map<char, int>, order: seq<char>)
    requires forall c :: c in order ==> c in m
    requires forall i, j :: 0 <= i < j < |order| ==> order[i] != order[j]
    ensures forall k, j :: 0 <= k < j < |order| && m[order[k]] == m[order[j]] ==>
              m[order[k]] in Inverse(m, order) && Inverse(m, order)[m[order[k]]] != order[k]
    decreases |order|
  {
    if order != [] {
      var n := |order| - 1;
      var last, prev := order[n], order[..n];
      assert forall c :: c in prev ==> c in order;
      InverseLastWins(m, prev);
      var old_inv := Inverse(m, prev);
      var inv := Inverse(m, order);
      assert inv == old_inv[m[last] := last];
      forall k, j | 0 <= k < j < |order| && m[order[k]] == m[order[j]]
        ensures m[order[k]] in inv && inv[m[order[k]]] != order[k]
      {
        var v := m[order[k]];
        assert order[k] != last;
        if v != m[last] {
          // j is not the last position, so the pair lies in the prefix
          assert j < n;
          assert prev[k] == order[k] && prev[j] == order[j];
          assert v in old_inv && old_inv[v] != order[k];
        }
      }
    }
  }

  /** When no two letters share a number, the inverse undoes the map. */
  lemma InverseUndoes(m: map<char, int>, order: seq<char>)
    requires IsKeyOrder(m, order)
    requires forall c, d :: c in m && d in m && c != d ==> m[c] != m[d]
    ensures forall c :: c in m ==> m[c] in Inverse(m, order) && Inverse(m, order)[m[c]] == c
  {
    var inv := Inverse(m, order);
    InverseKeys(m, order);
    InversePreimage(m, order);
    forall c | c in m
      ensures m[c] in inv && inv[m[c]] == c
    {
      assert m[c] in inv;
    }
  }

  /** Two letters sharing a number: the inverse keeps the later one. */
  lemma InverseLastWinsExample()
    ensures Inverse(map['a' := 0, 'b' := 0], ['a', 'b']) == map[0 := 'b']
  {
  }

  /** The letter reached by sending `ch` forward by `step`, through the
      reflector, and back by `step`, or the first lookup that fails. */
  function Substitute(t: Tables, ch: char, step: int): (r: Result<char>)
    ensures ch !in t.hashMap ==> r == Err(MissingLetter(ch))
    ensures r.Err? && r.error.MissingNumber? ==> 0 <= r.error.number < 26
  {
    if ch !in t.hashMap then Err(MissingLetter(ch))
    else
      var i := (t.hashMap[ch] + step) % 26;
      if i !in t.invHashMap then Err(MissingNumber(i))
      else
        var c1 := t.invHashMap[i];
        if c1 !in t.reflectorMap then Err(MissingReflection(c1))
        else
          var c2 := t.reflectorMap[c1];
          if c2 !in t.hashMap then Err(MissingLetter(c2))
          else
            var j := (t.hashMap[c2] - step) % 26;
            if j !in t.invHashMap then Err(MissingNumber(j))
            else Ok(t.invHashMap[j])
  }

  /** A substitution that succeeds yields a letter of the inverse map. */
  lemma SubstituteFromInverse(t: Tables, ch: char, step: int)
    requires Substitute(t, ch, step).Ok?
    ensures Substitute(t, ch, step).value in t.invHashMap.Values
  {
    var j := (t.hashMap[t.reflectorMap[t.invHashMap[(t.hashMap[ch] + step) % 26]]] - step) % 26;
    assert t.invHashMap[j] == Substitute(t, ch, step).value;
  }

  /** A letter reported missing from the letter map is either the input or
      a letter the reflector produced. */
  lemma SubstituteMissingLetter(t: Tables, ch: char, step: int)
    requires Substitute(t, ch, step).Err? && Substitute(t, ch, step).error.MissingLetter?
    ensures Substitute(t, ch, step).error.letter == ch || Substitute(t, ch, step).error.letter in t.reflectorMap.Values
  {
  }

  /** The letter map is a bijection from the 26 lowercase letters onto
      0..25, and `invHashMap` is its inverse. */
  ghost predicate Numbering(t: Tables) {
    && (forall c :: c in t.hashMap <==> IsLower(c))
    && (forall c :: c in t.hashMap ==> 0 <= t.hashMap[c] < 26)
    && (forall i :: i in t.invHashMap <==> 0 <= i < 26)
    && (forall i :: i in t.invHashMap ==> t.invHashMap[i] in t.hashMap && t.hashMap[t.invHashMap[i]] == i)
    && (forall c :: c in t.hashMap ==> t.invHashMap[t.hashMap[c]] == c)
  }

  /** The configuration every lookup succeeds on: a numbering of the letters
      and a reflector that sends each letter to a letter. */
  ghost predicate Total(t: Tables) {
    && Numbering(t)
    && (forall c :: c in t.hashMap ==> c in t.reflectorMap && t.reflectorMap[c] in t.hashMap)
  }

  /** A total configuration whose reflector is also an involution: the one
      on which encryption undoes itself. */
  ghost predicate WellFormed(t: Tables) {
    && Total(t)
    && (forall c :: c in t.hashMap ==> t.reflectorMap[t.reflectorMap[c]] == c)
  }

  /** A reflector that sends no letter to itself. */
  ghost predicate NoFixedPoint(t: Tables) {
    forall c :: c in t.hashMap && c in t.reflectorMap ==> t.reflectorMap[c] != c
  }

  /** A configuration read from a dictionary whose numbers are exactly 0..25,
      one per lowercase letter, with an involutive reflector, is well formed
      once the inverse is built from it. */
  lemma {:induction false} ConfigWellFormed(m: map<char, int>, order: seq<char>, reflector: map<char, char>)
    requires IsKeyOrder(m, order)
    requires forall c :: c in m <==> IsLower(c)
    requires forall c :: c in m ==> 0 <= m[c] < 26
    requires forall c, d :: c in m && d in m && c != d ==> m[c] != m[d]
    requires forall i :: 0 <= i < 26 ==> i in m.Values
    requires forall c :: c in m ==> c in reflector && reflector[c] in m
    requires forall c :: c in m ==> reflector[reflector[c]] == c
    ensures WellFormed(Tables(m, Inverse(m, order), reflector))
  {
    var inv := Inverse(m, order);
    InverseKeys(m, order);
    InversePreimage(m, order);
    forall i | 0 <= i < 26
      ensures i in inv
    {
      assert i in m.Values;
      var c :| c in m && m[c] == i;
      assert c in order;
    }
    InverseUndoes(m, order);
  }

  /** (x mod 26 + y) mod 26 == (x + y) mod 26. */
  lemma ModAdd(x: int, y: int)
    ensures (x % 26 + y) % 26 == (x + y) % 26
  {
  }

  /** On a total configuration every lowercase letter substitutes to a
      lowercase letter, whatever the reflector does within the letters. */
  lemma SubstituteTotal(t: Tables, ch: char, step: int)
    requires Total(t) && IsLower(ch)
    ensures Substitute(t, ch, step).Ok? && IsLower(Substitute(t, ch, step).value)
  {
  }

  /** Reciprocity: with a well-formed configuration, substituting the output
      letter at the same step gives back the input letter. */
  lemma SubstituteReciprocal(t: Tables, ch: char, step: int)
    requires WellFormed(t) && IsLower(ch)
    ensures Substitute(t, ch, step).Ok?
    ensures Substitute(t, Substitute(t, ch, step).value, step) == Ok(ch)
  {
    var h, inv, refl := t.hashMap, t.invHashMap, t.reflectorMap;
    // the first pass: ch -> c1 (forward) -> c2 (reflected) -> d (back)
    SubstituteOnTotal(t, ch, step);
    var c1 := inv[(h[ch] + step) % 26];
    var c2 := refl[c1];
    var d := inv[(h[c2] - step) % 26];
    // the second pass: forward from d lands on c2, reflected to c1, back to ch
    ForwardUndoesBack(t, c2, step);
    assert inv[(h[d] + step) % 26] == c2 && refl[c2] == c1;
    SubstituteOnTotal(t, d, step);
    BackUndoesForward(t, ch, step);
  }

  /** Going back by `step` and then forward by `step` lands where it began. */
  lemma ForwardUndoesBack(t: Tables, c: char, step: int)
    requires Numbering(t) && IsLower(c)
    ensures t.invHashMap[(t.hashMap[c] - step) % 26] in t.hashMap
    ensures t.invHashMap[(t.hashMap[t.invHashMap[(t.hashMap[c] - step) % 26]] + step) % 26] == c
  {
    var h, inv := t.hashMap, t.invHashMap;
    var j := (h[c] - step) % 26;
    assert j in inv;
    var e := inv[j];
    assert e in h && h[e] == j;
    ModAdd(h[c] - step, step);
    assert (h[e] + step) % 26 == h[c] % 26 == h[c];
    assert inv[h[c]] == c;
  }

  /** Going forward by `step` and then back by `step` lands where it began. */
  lemma BackUndoesForward(t: Tables, c: char, step: int)
    requires Numbering(t) && IsLower(c)
    ensures t.invHashMap[(t.hashMap[c] + step) % 26] in t.hashMap
    ensures t.invHashMap[(t.hashMap[t.invHashMap[(t.hashMap[c] + step) % 26]] - step) % 26] == c
  {
    var h, inv := t.hashMap, t.invHashMap;
    var i := (h[c] + step) % 26;
    assert i in inv;
    var e := inv[i];
    assert e in h && h[e] == i;
    ModAdd(h[c] + step, -step);
    assert (h[e] - step) % 26 == h[c] % 26 == h[c];
    assert inv[h[c]] == c;
  }

  /** Two different numbers in 0..25 stay different after the same shift
      modulo 26. */
  lemma ShiftInjective(a: int, b: int, s: int)
    requires 0 <= a < 26 && 0 <= b < 26 && a != b
    ensures (a - s) % 26 != (b - s) % 26
  {
    var qa, qb := (a - s) / 26, (b - s) / 26;
    assert a - s == 26 * qa + (a - s) % 26;
    assert b - s == 26 * qb + (b - s) % 26;
    assert (a - s) % 26 - (b - s) % 26 == (a - b) - 26 * (qa - qb);
  }

  /** Going back by the same step from two different letters reaches two
      different letters. */
  lemma BackInjective(t: Tables, c: char, d: char, step: int)
    requires Numbering(t) && IsLower(c) && IsLower(d) && c != d
    ensures t.invHashMap[(t.hashMap[c] - step) % 26] != t.invHashMap[(t.hashMap[d] - step) % 26]
  {
    var h, inv := t.hashMap, t.invHashMap;
    assert inv[h[c]] == c && inv[h[d]] == d;
    ShiftInjective(h[c], h[d], step);
    var j, j' := (h[c] - step) % 26, (h[d] - step) % 26;
    assert j in inv && j' in inv;
    assert h[inv[j]] == j && h[inv[j']] == j';
  }

  /** When each of the five keys is present, the substitution is the letter
      the last lookup finds. */
  lemma SubstituteWhenPresent(t: Tables, ch: char, step: int)
    requires ch in t.hashMap && (t.hashMap[ch] + step) % 26 in t.invHashMap
    requires t.invHashMap[(t.hashMap[ch] + step) % 26] in t.reflectorMap
    requires t.reflectorMap[t.invHashMap[(t.hashMap[ch] + step) % 26]] in t.hashMap
    requires (t.hashMap[t.reflectorMap[t.invHashMap[(t.hashMap[ch] + step) % 26]]] - step) % 26 in t.invHashMap
    ensures Substitute(t, ch, step) ==
      Ok(t.invHashMap[(t.hashMap[t.reflectorMap[t.invHashMap[(t.hashMap[ch] + step) % 26]]] - step) % 26])
  {
  }

  /** On a total configuration the substitution is the letter reached by
      the five lookups, none of which fails. */
  lemma SubstituteOnTotal(t: Tables, ch: char, step: int)
    requires Total(t) && IsLower(ch)
    ensures (t.hashMap[ch] + step) % 26 in t.invHashMap
    ensures IsLower(t.invHashMap[(t.hashMap[ch] + step) % 26])
    ensures IsLower(t.reflectorMap[t.invHashMap[(t.hashMap[ch] + step) % 26]])
    ensures Substitute(t, ch, step) ==
      Ok(t.invHashMap[(t.hashMap[t.reflectorMap[t.invHashMap[(t.hashMap[ch] + step) % 26]]] - step) % 26])
  {
    var h, inv, refl := t.hashMap, t.invHashMap, t.reflectorMap;
    var i := (h[ch] + step) % 26;
    assert i in inv && inv[i] in h;
    var c2 := refl[inv[i]];
    assert c2 in h;
    assert (h[c2] - step) % 26 in inv;
    SubstituteWhenPresent(t, ch, step);
  }

  /** Back from a letter other than the one forward reached cannot land on
      the starting letter. */
  lemma BackFromOtherLetter(t: Tables, ch: char, step: int, c2: char)
    requires Numbering(t) && IsLower(ch) && IsLower(c2)
    requires c2 != t.invHashMap[(t.hashMap[ch] + step) % 26]
    ensures t.invHashMap[(t.hashMap[c2] - step) % 26] != ch
  {
    var c1 := t.invHashMap[(t.hashMap[ch] + step) % 26];
    BackUndoesForward(t, ch, step);
    assert IsLower(c1);
    BackInjective(t, c2, c1, step);
  }

  /** With a reflector that has no fixed point, no letter encrypts to itself. */
  lemma SubstituteNeverFixed(t: Tables, ch: char, step: int)
    requires Total(t) && NoFixedPoint(t) && IsLower(ch)
    ensures Substitute(t, ch, step).Ok? && Substitute(t, ch, step).value != ch
  {
    SubstituteOnTotal(t, ch, step);
    var c1 := t.invHashMap[(t.hashMap[ch] + step) % 26];
    assert t.reflectorMap[c1] != c1;
    BackFromOtherLetter(t, ch, step, t.reflectorMap[c1]);
  }
}
