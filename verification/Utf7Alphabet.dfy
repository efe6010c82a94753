/** The bytes themselves: the digits, the escape bytes and the direct characters of both formats,
    as RFC 2152 and section 5.1.3 of RFC 3501 have them. */
module Utf7Alphabet {
  import opened Utf7Scheme

  function Upper(): (s: string)
    ensures |s| == 26
  {
    "ABCDEFGHIJKLMNOPQRSTUVWXYZ"
  }

  function Lower(): (s: string)
    ensures |s| == 26
  {
    "abcdefghijklmnopqrstuvwxyz"
  }

  function Decimal(): (s: string)
    ensures |s| == 10
  {
    "0123456789"
  }

  /** What plain UTF-7 writes directly besides letters and decimal digits. */
  function Marks(): string {
    "'(),-./:? \t\r\n<!\">=;[]"
  }

  /** The digits of each format, in the order of their values. */
  function DigitTable(sc: Scheme): (table: string)
    ensures |table| == 64
  {
    Upper() + Lower() + Decimal() + (if sc.UTF7? then "+/" else "+,")
  }

  /** The characters that plain UTF-7 writes directly. */
  function DirectTable(): string {
    Upper() + Lower() + Decimal() + Marks()
  }

  lemma UpperAt(i: nat)
    requires i < 26
    ensures Upper()[i] as int == 'A' as int + i
  {
  }

  lemma LowerAt(i: nat)
    requires i < 26
    ensures Lower()[i] as int == 'a' as int + i
  {
  }

  lemma DecimalAt(i: nat)
    requires i < 10
    ensures Decimal()[i] as int == '0' as int + i
  {
  }

  /** A digit is printed as the character at its place in the table. */
  lemma DigitsAreTable(sc: Scheme, d: Sextet)
    ensures sc.Digit(d) == DigitTable(sc)[d] as int
  {
    hide Upper, Lower, Decimal;
    if d < 26 {
      UpperAt(d);
    } else if d < 52 {
      LowerAt(d - 26);
    } else if d < 62 {
      DecimalAt(d - 52);
    }
  }

  /** The escape bytes and the byte that closes a run. */
  lemma EscapeBytes()
    ensures UTF7.Escape() == '+' as int && ModifiedUTF7.Escape() == '&' as int && DASH == '-' as int
  {
  }

  ghost predicate Among(u: Unit, table: string) {
    exists i :: 0 <= i < |table| && table[i] as int == u
  }

  lemma AmongConcat(u: Unit, a: string, b: string)
    ensures Among(u, a + b) <==> Among(u, a) || Among(u, b)
  {
    if i :| 0 <= i < |a| && a[i] as int == u {
      assert (a + b)[i] as int == u;
    }
    if i :| 0 <= i < |b| && b[i] as int == u {
      assert (a + b)[|a| + i] as int == u;
    }
  }

  lemma AmongUpper(u: Unit)
    ensures Among(u, Upper()) <==> 'A' as int <= u <= 'Z' as int
  {
    hide Upper;
    forall i: nat | i < 26 ensures Upper()[i] as int == 'A' as int + i { UpperAt(i); }
    if 'A' as int <= u <= 'Z' as int {
      UpperAt(u - 'A' as int);
    }
  }

  lemma AmongLower(u: Unit)
    ensures Among(u, Lower()) <==> 'a' as int <= u <= 'z' as int
  {
    hide Lower;
    forall i: nat | i < 26 ensures Lower()[i] as int == 'a' as int + i { LowerAt(i); }
    if 'a' as int <= u <= 'z' as int {
      LowerAt(u - 'a' as int);
    }
  }

  lemma AmongDecimal(u: Unit)
    ensures Among(u, Decimal()) <==> '0' as int <= u <= '9' as int
  {
    hide Decimal;
    forall i: nat | i < 10 ensures Decimal()[i] as int == '0' as int + i { DecimalAt(i); }
    if '0' as int <= u <= '9' as int {
      DecimalAt(u - '0' as int);
    }
  }

  lemma AmongMarks(u: Unit)
    ensures Among(u, Marks()) <==>
      || u == 9 || u == 10 || u == 13 || 32 <= u <= 34 || 39 <= u <= 41 || 44 <= u <= 47
      || 58 <= u <= 63 || u == 91 || u == 93
  {
    var m := Marks();
    assert m[0] == '\'' && m[1] == '(' && m[2] == ')' && m[3] == ',' && m[4] == '-' && m[5] == '.' && m[6] == '/';
    assert m[7] == ':' && m[8] == '?' && m[9] == ' ' && m[10] == '\t' && m[11] == '\r' && m[12] == '\n';
    assert m[13] == '<' && m[14] == '!' && m[15] == '"' && m[16] == '>' && m[17] == '=' && m[18] == ';';
    assert m[19] == '[' && m[20] == ']' && |m| == 21;
  }

  /** The direct characters: of plain UTF-7 those in the table, of modified UTF-7 all from the
      space to the tilde. */
  lemma DirectIsTable(u: Unit)
    ensures UTF7.DirectEncodable(u) <==> Among(u, DirectTable())
    ensures ModifiedUTF7.DirectEncodable(u) <==> ' ' as int <= u <= '~' as int
  {
    hide Upper, Lower, Decimal, Marks, Among;
    AmongConcat(u, Upper() + Lower() + Decimal(), Marks());
    AmongConcat(u, Upper() + Lower(), Decimal());
    AmongConcat(u, Upper(), Lower());
    AmongUpper(u);
    AmongLower(u);
    AmongDecimal(u);
    AmongMarks(u);
  }
}
