/** The 58 letters and the table that reads them back. */
module Base58Alphabet {

  const ALPHABET := "123456789" + "ABCDEFGH" + "JKLMN" + "PQRSTUVWXYZ" + "abcdefghijk" + "mnopqrstuvwxyz"

  /** Character code of letter `d`, run by run. */
  function Code(d: int): (c: int)
    requires 0 <= d < 58
  {
    if d < 9 then 49 + d
    else if d < 17 then 65 + (d - 9)
    else if d < 22 then 74 + (d - 17)
    else if d < 33 then 80 + (d - 22)
    else if d < 44 then 97 + (d - 33)
    else 109 + (d - 44)
  }

  /** The digit a letter stands for, -1 for anything else. */
  function Digit(c: char): int
  {
    var x := c as int;
    if 49 <= x < 58 then x - 49
    else if 65 <= x < 73 then x - 65 + 9
    else if 74 <= x < 79 then x - 74 + 17
    else if 80 <= x < 91 then x - 80 + 22
    else if 97 <= x < 108 then x - 97 + 33
    else if 109 <= x < 123 then x - 109 + 44
    else -1
  }

  lemma Runs(i: nat)
    ensures i < 9 ==> "123456789"[i] as int == 49 + i
    ensures i < 8 ==> "ABCDEFGH"[i] as int == 65 + i
    ensures i < 5 ==> "JKLMN"[i] as int == 74 + i
    ensures i < 11 ==> "PQRSTUVWXYZ"[i] as int == 80 + i
    ensures i < 11 ==> "abcdefghijk"[i] as int == 97 + i
  {
  }

  lemma LastRun(i: nat)
    requires i < 14
    ensures "mnopqrstuvwxyz"[i] as int == 109 + i
  {
    assert "mnopqrstuvwxyz" == "mnopqrs" + "tuvwxyz";
    assert i < 7 ==> "mnopqrs"[i] as int == 109 + i;
  }

  lemma AlphabetSize()
    ensures |ALPHABET| == 58
  {
  }

  /** The table spells out `Code`, and `Digit` undoes it. */
  lemma Letter(d: nat)
    requires d < 58
    ensures |ALPHABET| == 58 && ALPHABET[d] as int == Code(d) && Digit(ALPHABET[d]) == d
  {
    if d < 44 {
      Runs(if d < 9 then d else if d < 17 then d - 9 else if d < 22 then d - 17 else if d < 33 then d - 22 else d - 33);
    } else {
      LastRun(d - 44);
    }
  }

  function At(d: int): char
    requires 0 <= d < 58
  {
    AlphabetSize();
    ALPHABET[d]
  }

  /** Letters and digits correspond one to one. */
  lemma DigitLetter(c: char)
    ensures -1 <= Digit(c) < 58 && (Digit(c) >= 0 ==> At(Digit(c)) == c)
  {
    AlphabetSize();
    if Digit(c) >= 0 { Letter(Digit(c)); }
  }

  function Lookup(t: seq<int>, c: char): int
    requires |t| == 74
  {
    var x := c as int - 49;
    if 0 <= x < 74 then t[x] else -1
  }

  /** `reverse_alphabet`: filled letter by letter, it inverts the alphabet and refuses every other character. */
  method ReverseTable() returns (t: seq<int>)
    ensures |t| == 74 && forall c: char :: Lookup(t, c) == Digit(c)
  {
    t := seq(74, _ => -1);
    for i := 0 to 58
      invariant |t| == 74
      invariant forall x :: 0 <= x < 74 ==> -1 <= t[x] < i
      invariant forall d :: 0 <= d < i ==> t[Code(d) - 49] == d
      invariant forall x :: 0 <= x < 74 && t[x] >= 0 ==> Code(t[x]) == x + 49
    {
      Letter(0);
      Letter(i);
      t := t[ALPHABET[i] as int - ALPHABET[0] as int := i];
    }
    hide ALPHABET;
    forall c: char ensures Lookup(t, c) == Digit(c) {
      TableEntry(t, c);
    }
  }

  lemma TableEntry(t: seq<int>, c: char)
    requires |t| == 74
    requires forall x :: 0 <= x < 74 ==> -1 <= t[x] < 58
    requires forall d :: 0 <= d < 58 ==> t[Code(d) - 49] == d
    requires forall x :: 0 <= x < 74 && t[x] >= 0 ==> Code(t[x]) == x + 49
    ensures Lookup(t, c) == Digit(c)
  {
    var d := Digit(c);
    if d >= 0 { assert Code(d) == c as int; }
  }
}
