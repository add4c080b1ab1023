/**
 * The security-code generator of bot.js (generateSecurityCode). Each
 * character is one independent draw `Math.floor(Math.random() * 36)`; the
 * draws are passed in, each as the index it selects.
 */
module SecurityCode {

  /** The 36 symbols a code is made of, in the order the source lists them. */
  const Alphabet: string := "ABCDEFGHIJKLMNOPQRSTUVWXYZ0123456789"

  /** The length used when none is given, and the one /encinv asks for. */
  const DefaultLength: nat := 6

  /** One random draw: the index of the symbol it picks. */
  type Draw = d: nat | d < 36

  /** An upper-case ASCII letter or a decimal digit: a symbol of the alphabet (see AlphabetRanges). */
  predicate IsSymbol(c: char)
  {
    'A' <= c <= 'Z' || '0' <= c <= '9'
  }

  /** `code` has `n` characters, all of them symbols of the alphabet. */
  predicate IsCode(code: string, n: nat)
  {
    |code| == n && forall i :: 0 <= i < |code| ==> IsSymbol(code[i])
  }

  /** The symbol at index `d`, written by character ranges rather than by the literal. */
  function Symbol(d: Draw): (c: char)
  {
    if d < 26 then ('A' as int + d) as char else ('0' as int + d - 26) as char
  }

  lemma AlphabetSymbols()
    ensures |Alphabet| == 36
    ensures forall d: Draw :: Alphabet[d] == Symbol(d)
  {
  }

  /** The alphabet is exactly the upper-case ASCII letters and the decimal digits. */
  lemma AlphabetRanges(c: char)
    ensures c in Alphabet <==> IsSymbol(c)
  {
    AlphabetSymbols();
    if c in Alphabet {
      var i :| 0 <= i < |Alphabet| && Alphabet[i] == c;
      assert c == Symbol(i);
    }
    if IsSymbol(c) {
      var d: Draw := if 'A' <= c <= 'Z' then c as int - 'A' as int else c as int - '0' as int + 26;
      assert Alphabet[d] == c;
    }
  }

  /** One symbol per draw: `length` characters, character `i` chosen by draw `i`. */
  function GenerateSecurityCode(length: nat, draws: seq<Draw>): (code: string)
    requires |draws| == length
    ensures IsCode(code, length)
    ensures forall i :: 0 <= i < length ==> code[i] == Alphabet[draws[i]]
  {
    if length == 0 then []
    else
      AlphabetSymbols();
      [Alphabet[draws[0]]] + GenerateSecurityCode(length - 1, draws[1..])
  }

  /** The draw that selects symbol `c`: the inverse of indexing the alphabet. */
  function DrawOf(c: char): (d: Draw)
    requires IsSymbol(c)
    ensures Alphabet[d] == c
  {
    AlphabetSymbols();
    if 'A' <= c <= 'Z' then c as int - 'A' as int else c as int - '0' as int + 26
  }

  /** The draws that produce `code`, one per character. */
  function DrawsOf(code: string): (draws: seq<Draw>)
    requires IsCode(code, |code|)
    ensures |draws| == |code|
    ensures forall i :: 0 <= i < |code| ==> Alphabet[draws[i]] == code[i]
  {
    if code == [] then [] else [DrawOf(code[0])] + DrawsOf(code[1..])
  }

  /** Different draws pick different symbols: the 36 symbols are distinct. */
  lemma DrawOfSymbol(d: Draw)
    ensures DrawOf(Alphabet[d]) == d
  {
    AlphabetSymbols();
  }

  /** Every code of the right shape is produced by some draws: the generator can reach all 36^length codes. */
  lemma {:induction false} GenerateReachesEveryCode(code: string)
    requires IsCode(code, |code|)
    ensures GenerateSecurityCode(|code|, DrawsOf(code)) == code
  {
    if code != [] {
      GenerateReachesEveryCode(code[1..]);
    }
  }

  /** Distinct draw sequences give distinct codes, so each code has exactly one draw sequence behind it. */
  lemma {:induction false} GenerateIsInjective(length: nat, draws: seq<Draw>)
    requires |draws| == length
    ensures DrawsOf(GenerateSecurityCode(length, draws)) == draws
  {
    if length > 0 {
      var code := GenerateSecurityCode(length, draws);
      GenerateIsInjective(length - 1, draws[1..]);
      DrawOfSymbol(draws[0]);
      assert code[1..] == GenerateSecurityCode(length - 1, draws[1..]);
    }
  }
}
