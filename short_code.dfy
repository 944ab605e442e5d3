/** The short-code generator of the service: six characters drawn from a
    fixed 62-character alphanumeric alphabet. The random source is not
    modelled; each call is handed the six indices it would have drawn. */
module ShortCode {

  /** The alphabet, in the order the generator indexes it. */
  const Chars: string := "ABCDEFGHIJKLMNOPQRSTUVWXYZabcdefghijklmnopqrstuvwxyz0123456789"

  /** Number of characters in a generated code. */
  const CodeLength: nat := 6

  /** One draw of the random source: an index into Chars, as produced by
      flooring a uniform sample times the alphabet's length. */
  type Draw = i: nat | i < 62

  predicate IsAlphanumeric(c: char) {
    'A' <= c <= 'Z' || 'a' <= c <= 'z' || '0' <= c <= '9'
  }

  /** A well-formed generated code: six characters, all alphanumeric. */
  predicate IsShortCode(s: string) {
    |s| == CodeLength && forall i :: 0 <= i < |s| ==> IsAlphanumeric(s[i])
  }

  /** The three runs the alphabet is made of. */
  const Upper: string := "ABCDEFGHIJKLMNOPQRSTUVWXYZ"
  const Lower: string := "abcdefghijklmnopqrstuvwxyz"
  const Digits: string := "0123456789"

  /** The alphabet is the three runs one after the other. */
  lemma CharsRuns()
    ensures Chars == Upper + Lower + Digits
  {
  }

  lemma UpperRun(k: nat)
    requires k < 26
    ensures Upper[k] as int == 'A' as int + k
  {
  }

  lemma LowerRun(k: nat)
    requires k < 26
    ensures Lower[k] as int == 'a' as int + k
  {
  }

  lemma DigitsRun(k: nat)
    requires k < 10
    ensures Digits[k] as int == '0' as int + k
  {
  }

  /** The alphabet, position by position: upper case, lower case, digits,
      each run in ascending character order. */
  lemma CharsLayout(d: Draw)
    ensures |Chars| == 62
    ensures d < 26 ==> Chars[d] as int == 'A' as int + d
    ensures 26 <= d < 52 ==> Chars[d] as int == 'a' as int + (d - 26)
    ensures 52 <= d ==> Chars[d] as int == '0' as int + (d - 52)
  {
    CharsRuns();
    if d < 26 {
      UpperRun(d);
    } else if d < 52 {
      LowerRun(d - 26);
    } else {
      DigitsRun(d - 52);
    }
  }

  /** The character a draw selects. */
  function CharOf(d: Draw): (c: char)
    ensures IsAlphanumeric(c)
  {
    CharsLayout(d);
    Chars[d]
  }

  /** The draw that selects an alphanumeric character. */
  function DrawOf(c: char): (d: Draw)
    requires IsAlphanumeric(c)
    ensures CharOf(d) == c
  {
    var d: Draw :=
      if 'A' <= c <= 'Z' then c as int - 'A' as int
      else if 'a' <= c <= 'z' then 26 + (c as int - 'a' as int)
      else 52 + (c as int - '0' as int);
    CharsLayout(d);
    d
  }

  /** Distinct draws select distinct characters: the alphabet has no repeats. */
  lemma CharOfInjective(d: Draw, e: Draw)
    requires CharOf(d) == CharOf(e)
    ensures d == e
  {
    CharsLayout(d);
    CharsLayout(e);
  }

  /** The code spelled by a sequence of draws. */
  function Spell(draws: seq<Draw>): (s: string)
    ensures |s| == |draws|
    ensures forall i :: 0 <= i < |s| ==> IsAlphanumeric(s[i])
  {
    seq(|draws|, i requires 0 <= i < |draws| => CharOf(draws[i]))
  }

  /** The draws that spell an alphanumeric string. */
  function Unspell(s: string): (draws: seq<Draw>)
    requires forall i :: 0 <= i < |s| ==> IsAlphanumeric(s[i])
    ensures |draws| == |s|
  {
    seq(|s|, i requires 0 <= i < |s| => DrawOf(s[i]))
  }

  /** Every alphanumeric string is spelled by the draws Unspell gives it. */
  lemma SpellUnspell(s: string)
    requires forall i :: 0 <= i < |s| ==> IsAlphanumeric(s[i])
    ensures Spell(Unspell(s)) == s
  {
  }

  /** Spelling loses nothing: the draws are recovered from the code. */
  lemma UnspellSpell(draws: seq<Draw>)
    ensures Unspell(Spell(draws)) == draws
  {
    var back := Unspell(Spell(draws));
    forall i | 0 <= i < |draws|
      ensures back[i] == draws[i]
    {
      CharOfInjective(back[i], draws[i]);
    }
  }

  /** Two different draw sequences never spell the same code. */
  lemma SpellInjective(d1: seq<Draw>, d2: seq<Draw>)
    requires Spell(d1) == Spell(d2)
    ensures d1 == d2
  {
    UnspellSpell(d1);
    UnspellSpell(d2);
  }

  /** Every well-formed code can be generated: the generator's range is
      exactly the set of six-character alphanumeric strings. */
  lemma EveryShortCodeIsSpelled(s: string)
    requires IsShortCode(s)
    ensures exists draws: seq<Draw> :: |draws| == CodeLength && Spell(draws) == s
  {
    SpellUnspell(s);
  }

  /** generateShortCode: appends one alphabet character per draw, six times. */
  method GenerateShortCode(draws: seq<Draw>) returns (code: string)
    requires |draws| == CodeLength
    ensures IsShortCode(code)
    ensures code == Spell(draws)
  {
    code := "";
    for i := 0 to CodeLength
      invariant |code| == i
      invariant forall k :: 0 <= k < i ==> code[k] == CharOf(draws[k])
    {
      code := code + [Chars[draws[i]]];
    }
  }
}
