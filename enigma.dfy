/** The cipher engine: an object holding the three maps, the wheel list it
    mutates while encrypting a line and the snapshot it restores afterwards. */
module EnigmaEngine {
  import opened Wheels
  import opened Tables
  import opened Cipher

  class Enigma {
    const hashMap: map<char, int>
    const invHashMap: map<int, char>
    const reflectorMap: map<char, char>
    const initialWheels: seq<int>
    var wheels: seq<int>

    ghost predicate Valid()
      reads this
    {
      HasWheels(initialWheels) && |wheels| == |initialWheels|
    }

    /** The maps as one value, for the specification functions. */
    function Config(): Tables {
      Tables(hashMap, invHashMap, reflectorMap)
    }

    /** What encrypting `message` from the initial wheels yields. */
    function FreshEncryption(message: string): Result<string>
      requires HasWheels(initialWheels)
    {
      match Run(Config(), initialWheels, message, 0)
      case Done(out, _, _) => Ok(out)
      case Failed(e, _) => Err(e)
    }

    /** Keeps the maps as given, derives the inverse map by visiting the keys
        in the dictionary's order `keyOrder`, and takes two copies of the
        wheel list: one to mutate and one to restore. */
    constructor (hashMap: map<char, int>, keyOrder: seq<char>, wheels: seq<int>, reflectorMap: map<char, char>)
      requires IsKeyOrder(hashMap, keyOrder)
      requires HasWheels(wheels)
      ensures Valid()
      ensures this.hashMap == hashMap && this.reflectorMap == reflectorMap
      ensures invHashMap == Inverse(hashMap, keyOrder)
      ensures this.wheels == wheels && initialWheels == wheels
    {
      this.hashMap := hashMap;
      this.invHashMap := Inverse(hashMap, keyOrder);
      this.wheels := wheels;
      this.initialWheels := wheels;
      this.reflectorMap := reflectorMap;
    }

    /** The offset of the current wheels; the wheels are only read. */
    method CalculateWheels() returns (offset: int)
      requires Valid()
      ensures offset == Offset(wheels)
    {
      offset := (2 * wheels[0] - wheels[1] + wheels[2]) % 26;
    }

    /** Advances the three wheels in place, element by element, with the
        substitution count `numEncrypted`. */
    method UpdateWheels(numEncrypted: int)
      requires Valid()
      modifies this`wheels
      ensures Valid()
      ensures wheels == Advance(old(wheels), numEncrypted)
    {
      wheels := wheels[0 := wheels[0] % 8 + 1];
      if numEncrypted % 2 == 0 {
        wheels := wheels[1 := wheels[1] * 2];
      } else {
        wheels := wheels[1 := wheels[1] - 1];
      }
      if numEncrypted % 10 == 0 {
        wheels := wheels[2 := 10];
      } else if numEncrypted % 3 == 0 {
        wheels := wheels[2 := 5];
      } else {
        wheels := wheels[2 := 0];
      }
    }

    /** The lookups for one lowercase letter at the given offset: forward by
        the step, reflect, back by the same step.  The first lookup that
        fails is returned as the error. */
    method SubstituteLetter(ch: char, offset: int) returns (r: Result<char>)
      ensures r == Substitute(Config(), ch, Step(offset))
    {
      if ch !in hashMap {
        return Err(MissingLetter(ch));
      }
      var i := hashMap[ch];
      i := i + Step(offset);
      i := i % 26;
      if i !in invHashMap {
        return Err(MissingNumber(i));
      }
      var c1 := invHashMap[i];
      if c1 !in reflectorMap {
        return Err(MissingReflection(c1));
      }
      var c2 := reflectorMap[c1];
      if c2 !in hashMap {
        return Err(MissingLetter(c2));
      }
      i := hashMap[c2];
      i := i - Step(offset);
      i := i % 26;
      if i !in invHashMap {
        return Err(MissingNumber(i));
      }
      r := Ok(invHashMap[i]);
    }

    /** Encrypts one line.  On success the wheels are restored to the
        snapshot; when a lookup fails the error is returned and the wheels
        stay where the failing letter found them, as an exception raised in
        the middle of the line would leave them. */
    method Encrypt(message: string) returns (r: Result<string>)
      requires Valid()
      modifies this`wheels
      ensures Valid()
      ensures match Run(Config(), old(wheels), message, 0)
        case Done(out, _, _) => r == Ok(out) && wheels == initialWheels
        case Failed(e, w) => r == Err(e) && wheels == w
    {
      var result := "";
      var numEncrypted := 0;
      ghost var whole := Run(Config(), wheels, message, 0);
      for k := 0 to |message|
        invariant Valid()
        invariant numEncrypted == CountLower(message[..k])
        invariant whole == PrependAll(result, Run(Config(), wheels, message[k..], numEncrypted))
      {
        RunStep(Config(), wheels, message, numEncrypted, k);
        assert message[..k + 1] == message[..k] + [message[k]];
        CountLowerAppend(message[..k], message[k]);
        var ch := message[k];
        if !IsLower(ch) {
          // pass through, and still step the wheels with the current count
          PrependAllTwice(result, [ch], Run(Config(), Advance(wheels, numEncrypted), message[k + 1..], numEncrypted));
          result := result + [ch];
          UpdateWheels(numEncrypted);
        } else {
          var offset := CalculateWheels();
          var sub := SubstituteLetter(ch, offset);
          if sub.Err? {
            return Err(sub.error);
          }
          var c3 := sub.value;
          ghost var tail := Run(Config(), Advance(wheels, numEncrypted + 1), message[k + 1..], numEncrypted + 1);
          PrependAllTwice(result, [c3], tail);
          result := result + [c3];
          numEncrypted := numEncrypted + 1;
          UpdateWheels(numEncrypted);
        }
      }
      assert message[|message|..] == [];
      assert whole == Done(result + [], wheels, numEncrypted);
      assert result + [] == result;
      wheels := initialWheels;
      r := Ok(result);
    }
  }

  /** Two lines through one engine that starts at its snapshot: the first is
      encrypted from the snapshot, and after it succeeds so is the second,
      whatever the first line was.  With m2 == m1 both results are equal. */
  method EncryptTwoLines(e: Enigma, m1: string, m2: string) returns (r1: Result<string>, r2: Result<string>)
    requires e.Valid() && e.wheels == e.initialWheels
    modifies e`wheels
    ensures r1 == e.FreshEncryption(m1)
    ensures r1.Ok? ==> r2 == e.FreshEncryption(m2)
    ensures r1.Ok? && r2.Ok? ==> e.wheels == e.initialWheels
  {
    r1 := e.Encrypt(m1);
    r2 := e.Encrypt(m2);
  }

  /** With a well-formed configuration, encrypting the output of a line
      gives the line back. */
  method EncryptDecrypt(e: Enigma, message: string) returns (cipher: Result<string>, plain: Result<string>)
    requires e.Valid() && e.wheels == e.initialWheels
    requires WellFormed(e.Config())
    modifies e`wheels
    ensures cipher.Ok? && plain == Ok(message)
    ensures e.wheels == e.initialWheels
  {
    RunRoundTrip(e.Config(), e.initialWheels, message, 0);
    cipher := e.Encrypt(message);
    plain := e.Encrypt(cipher.value);
  }
}
