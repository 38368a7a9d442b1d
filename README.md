# Enigma-like line cipher, modelled in Dafny

This project models the cipher engine of a small "Enigma-like" substitution
cipher (the `Enigma` class of `enigma.py`). The engine holds three maps and a
wheel list:

- a letter -> number map (`hash_map`);
- its inverse (`_inv_hash_map`), built from the map's items in dictionary
  order, so a later letter wins when two letters share a number;
- a reflector map from letter to letter;
- the wheel list, which it mutates, and a snapshot of that list, which it
  restores at the end of every line that completes (a line whose lookup
  fails leaves the wheels where that letter found them).

To encrypt a line, the engine walks its characters in order. Any character
that is not a lowercase letter is copied unchanged. The wheels still advance
for it, using the current substitution count. A lowercase letter goes through
these steps:

1. its number is shifted forward by the step (`offset or 1`), with offset
   `(2*w0 - w1 + w2) mod 26`;
2. the shifted number is mapped back to a letter, and that letter is
   reflected;
3. the reflected letter's number is shifted back by the same step and mapped
   back to a letter;
4. the count rises by one, and the wheels advance using the new count.

Advancing sets `w0` to `(w0 mod 8) + 1`. It doubles `w1` on an even count and
decrements it on an odd count. It sets `w2` to 10, 5 or 0 from the count alone.

Files and modules:

- `wheels.dfy`, module `Wheels`: offset, step, one advance, and the
  closed form of the first wheel over many advances.
- `tables.dfy`, module `Tables`: the maps, the inverse with last-wins
  semantics, the substitution of one letter, totality on a configuration
  whose maps are total (`Total`), and reciprocity when the reflector is also
  an involution (`WellFormed`).
- `cipher.dfy`, module `Cipher`: `Run`, the encryption of a whole line as a
  function, with lemmas on its shape, its failures, its letter count and its
  round trip.
- `enigma.dfy`, module `EnigmaEngine`: class `Enigma`. The maps and the
  snapshot are `const` fields, and `wheels` is a `seq<int>` field that the
  methods reassign. `CalculateWheels`, `UpdateWheels`, `SubstituteLetter` (the
  lookups of one letter inside the loop of `encrypt`) and `Encrypt` are proved
  against `Offset`, `Advance`, `Substitute` and `Run`. The source looks the
  letter up before it computes the offset; computing the offset changes
  nothing, so the model takes both in the other order. Two client methods state determinism,
  reset and round trip at the level of the object.

Lookups that fail in the source raise `KeyError`. Here they return
`Err(MissingLetter(c))`, `Err(MissingNumber(i))` or `Err(MissingReflection(c))`.
The error names the missing key and comes from the first lookup that
fails, in the source's order.

Three points of the code's behaviour that are easy to get wrong:

- The reset of the wheels (enigma.py:220) comes after the loop, so it is
  only reached when every character of the line goes through. A lookup
  failure leaves the wheels where the failing letter found them. `Encrypt`
  states exactly this, and `RunFailure` describes that state.
- Every line completes when the letter map is a bijection from `a`..`z`
  onto 0..25 and the reflector sends each letter to a letter, whatever
  that reflector is (`RunTotal`; `CycleABCCompletes` for a reflector that is
  not an involution). Encrypting the output again from the same wheels
  gives the line back when the reflector is also an involution
  (`RunRoundTrip`, `EncryptDecrypt`). Nothing in the code enforces those
  conditions. With a reflector that is not an involution the round trip
  fails on some line, for example on the line "a" with the reflector that
  cycles `a`, `b` and `c` (`NoRoundTripWithoutInvolution`).
- A zero offset does not make the output letter differ from the input: the
  code only replaces a step of 0 by a step of 1 (`Step`,
  `ZeroOffsetExample`). When the letter map is a bijection from `a`..`z` onto
  0..25, the identity reflector makes every letter encrypt to itself at any
  step. On such a map a letter never encrypts to itself when the reflector
  has no fixed point (`SubstituteNeverFixed`).

## Model

| member | source | states |
|---|---|---|
| `Wheels.Offset` | enigma.py:162-163 | the offset is in 0..25 and congruent to 2*w0 - w1 + w2 modulo 26, also for negative or large wheel values |
| `Wheels.Step` | enigma.py:198-208 | the step `offset or 1` is exactly 1 for a zero offset and the offset itself otherwise, so it is never 0 and lies in 1..25 for an offset in 0..25 |
| `Wheels.Advance` | enigma.py:165-181 | one advance: w0 lands in 1..8 and wraps 8 -> 1 (3 -> 4); w1 doubles on an even count and drops by one on an odd count; w2 is 10 when the count is a multiple of 10, else 5 when a multiple of 3, else 0, independent of its old value; further list entries are untouched |
| `Wheels.AdvanceAll` | enigma.py:165-181 | advancing once per count keeps the list's length and never touches the entries after the third |
| `Wheels.AdvanceSameCountTwice` | enigma.py:165-181 | advancing twice with the same count, as a run of pass-through characters does, leaves w2 fixed while w1 keeps doubling or decrementing |
| `Wheels.AdvanceAllFirstWheel` | enigma.py:167 | after k >= 1 advances w0 is (w0 + k - 1) mod 8 + 1 whatever the counts and the starting value |
| `Tables.IsLower` | enigma.py:189 | a character that is substituted has a letter number in 0..25 (`str.islower` restricted to `a`..`z`) |
| `Tables.Inverse` | enigma.py:156 | the inverse has at most one entry per key of the dictionary, and the key visited last owns its number |
| `Tables.InverseKeys` | enigma.py:156 | the inverse's keys are exactly the numbers the letters carry |
| `Tables.InversePreimage` | enigma.py:156 | the inverse sends each number to a letter that carries that number |
| `Tables.InverseLastWins` | enigma.py:156 | when two letters share a number, the earlier one in dictionary order is not the inverse's choice |
| `Tables.InverseUndoes` | enigma.py:156 | when no two letters share a number the inverse undoes the map |
| `Tables.InverseLastWinsExample` | enigma.py:156 | {a: 0, b: 0} in that order inverts to {0: b} |
| `Tables.Substitute` | enigma.py:194-212 | a letter missing from the letter map fails naming that letter; a missing number is always in 0..25, because both lookups of the inverse come after `% 26` |
| `Tables.SubstituteFromInverse` | enigma.py:212 | a substitution that succeeds yields a value of the inverse map |
| `Tables.SubstituteMissingLetter` | enigma.py:195-205 | a letter reported missing from the letter map is either the input or a letter the reflector produced |
| `Tables.SubstituteWhenPresent` | enigma.py:194-212 | when each of the five keys is present, the substitution is the letter the last lookup finds |
| `Tables.SubstituteOnTotal` | enigma.py:194-212 | on a total configuration every key the five lookups need is present, the intermediate letters are lowercase, and the substitution is the letter the last lookup finds |
| `Tables.ConfigWellFormed` | enigma.py:153-160 | a dictionary numbering a..z one-to-one onto 0..25 with an involutive reflector yields a well-formed engine configuration |
| `Tables.SubstituteTotal` | enigma.py:194-213 | when the letter map is a bijection of a..z onto 0..25 with its inverse and the reflector sends letters to letters, every lowercase letter substitutes without a lookup failure to a lowercase letter; the reflector need not be an involution |
| `Tables.SubstituteReciprocal` | enigma.py:194-213 | on a well-formed configuration substituting the output at the same step gives the input back |
| `Tables.SubstituteNeverFixed` | enigma.py:194-213 | on a total configuration whose reflector has no fixed point no letter substitutes to itself; the reflector need not be an involution |
| `Cipher.Run` | enigma.py:183-221 | a line that completes has output of the line's length and a final count equal to the number of lowercase letters in it |
| `Cipher.RunWheels` | enigma.py:187-217 | a line that completes leaves the wheels that one advance per character produces, each with the count after that character |
| `Cipher.Tick` | enigma.py:189-192 | the substitution count rises by exactly one after a lowercase letter (enigma.py:216) and stays the same after any other character |
| `Cipher.UpdateCounts` | enigma.py:191-217 | one wheel-advance count per character of the line |
| `Cipher.WheelsAfter` | enigma.py:187-217 | advancing once per character keeps the wheel list's length |
| `Cipher.CountLower` | enigma.py:191-217 | the number of substituted letters never exceeds the line's length |
| `Cipher.UpdateCountAt` | enigma.py:191-217 | at position k the wheels advance with the number of letters before k, plus one exactly when position k is a letter |
| `Cipher.RunAt` | enigma.py:187-213 | at each position a non-lowercase character appears unchanged; a lowercase letter appears as its substitution at the step of the offset of the wheels the earlier characters left |
| `Cipher.RunFailure` | enigma.py:194-213 | a failing line fails at a lowercase letter whose substitution fails with that error, after a cleanly running prefix, with the wheels that prefix left |
| `Cipher.UnknownLetterFails` | enigma.py:195 | a lowercase letter missing from the letter map makes the line fail instead of passing through |
| `Cipher.RunTotal` | enigma.py:183-221 | on a total configuration every line completes, whatever the reflector does within the letters |
| `Cipher.CycleABCCompletes` | enigma.py:183-221 | the in-order letters with the reflector cycling a, b, c are total but not well formed, and every line on them completes |
| `Cipher.RunRoundTrip` | enigma.py:183-221 | on a well-formed configuration encrypting the output from the same wheels gives the line back with the same final wheels and count |
| `Cipher.SwapABExample` | enigma.py:183-221 | with letters numbered in order, a reflector swapping a and b, and wheels [1, 1, 1], the line "ab" encrypts to "ab" and leaves wheels [3, 0, 0] |
| `Cipher.ZeroOffsetExample` | enigma.py:198-209 | wheels [1, 2, 0] give offset 0, applied as step 1: "a" encrypts to "z" |
| `Cipher.NoRoundTripWithoutInvolution` | enigma.py:183-221 | with a reflector cycling a, b, c, "a" encrypts to "y" and "y" to "z" |
| `EnigmaEngine.Enigma.constructor` | enigma.py:153-160 | keeps the maps, derives the inverse in dictionary order, and starts the wheels and the snapshot as copies of the given list |
| `EnigmaEngine.Enigma.CalculateWheels` | enigma.py:162-163 | returns the offset of the current wheels and changes nothing |
| `EnigmaEngine.Enigma.UpdateWheels` | enigma.py:165-181 | the new wheel list is one advance of the old one; nothing else changes |
| `EnigmaEngine.Enigma.SubstituteLetter` | enigma.py:194-213 | the lookups of one letter, forward by `offset or 1`, through the reflector and back, give the substitution of that letter, or the error of the first lookup that fails |
| `EnigmaEngine.Enigma.Encrypt` | enigma.py:183-221 | returns the line's encryption from the current wheels and restores the snapshot; on a lookup failure returns that error and leaves the wheels at the failing letter; the maps and snapshot never change |
| `EnigmaEngine.EncryptTwoLines` | enigma.py:219-221 | after a line succeeds the next line is encrypted from the snapshot, independent of the first; the same line twice gives the same result |
| `EnigmaEngine.EncryptDecrypt` | enigma.py:183-221 | on a well-formed configuration, encrypting a line and then its output gives the line back and leaves the wheels at the snapshot |

## Left out

- `load_enigma_from_path` (enigma.py:223-233) is not modelled: it opens a file, decodes JSON and re-wraps exceptions. The constructor takes the three configuration fields as arguments instead.
- `encrypt_from_file` (enigma.py:235-247) is not modelled: it reads lines, strips newlines, skips blank lines and calls `encrypt` on each, which is file I/O.
- `main`, `print_usage_error` and `print_runtime_error` (enigma.py:249-305) are not modelled: they parse arguments, write to stderr and exit the process.
- The commented-out earlier version of the engine (enigma.py:1-144) is dead code and is not modelled.
- `str.islower` is restricted to `'a'`..`'z'`. Other Unicode lowercase characters are passed through by the model, but in the source they would be looked up.
- Python dictionary iteration order is not part of Dafny's `map`. The constructor takes it as the parameter `keyOrder`, the order of the keys as the dictionary yields them.
- EnigmaEngine.Enigma.constructor: requires a wheel list of at least three entries. With a shorter list the source raises `IndexError` at the first character that reaches the wheels (a lowercase letter missing from the letter map raises `KeyError` before that, and an empty line raises nothing); these behaviours are not modelled. Entries after the third are kept and never touched, as in the source.
- Keys of the letter map and values of the reflector are single characters (`char`). The source takes any JSON string there. With a multi-character key, `result += c3` (enigma.py:213) would append more than one character, and the output could be longer than the line. `Cipher.Run`'s length promise relies on this restriction.
- JSON values of other types than integers (floats, strings) in the configuration are not modelled; numbers are unbounded integers.
- Exceptions are modelled as `Err` results that carry the missing key. The Python exception objects and their tracebacks are not modelled.
- Calling `encrypt` concurrently on one engine is not modelled; the model is sequential.
