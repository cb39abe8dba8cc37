/** The month argument shared by the ingestion and preprocessing programs:
    `int(sys.argv[1]) if len(sys.argv) > 1 else 6`. */
module CommandLine {
  import opened Wrappers
  import Decimal

  /** The month used when no argument is given (June). */
  const DefaultMonth := 6

  /** The month a program run with argument vector argv works on; None is
      the ValueError raised by `int` on a malformed argument, which neither
      program catches. Arguments after the first are ignored. */
  function MonthArgument(argv: seq<string>): Option<int> {
    if |argv| > 1 then Decimal.ParseInt(argv[1]) else Some(DefaultMonth)
  }

  /** The numeral of m, followed by anything, selects month m when it is
      within CPython's digit limit, and is rejected otherwise. */
  lemma MonthArgumentOfNumeral(program: string, m: int, rest: seq<string>)
    ensures Decimal.WithinStrLimit(m) ==> MonthArgument([program, Decimal.IntToString(m)] + rest) == Some(m)
    ensures !Decimal.WithinStrLimit(m) ==> MonthArgument([program, Decimal.IntToString(m)] + rest) == None
  {
    var argv := [program, Decimal.IntToString(m)] + rest;
    assert argv[1] == Decimal.IntToString(m);
    Decimal.ParseIntOfIntToString(m);
  }

  /** A word or an empty argument is rejected, whatever follows. */
  lemma MonthArgumentRejects(program: string, rest: seq<string>)
    ensures MonthArgument([program, "June"] + rest) == None
    ensures MonthArgument([program, ""] + rest) == None
  {
    var june := "June";
    assert ([program, june] + rest)[1] == june;
    assert june[0] == 'J' && june[|june| - 1] == 'e';
    Decimal.ParseIntRejectsNonNumeral(june);
    assert ([program, ""] + rest)[1] == "";
    assert Decimal.ParseInt("") == None;
  }

  /** Without an argument the month is 6; with the numeral of m it is m,
      whatever follows, unless the numeral exceeds the digit limit; an
      argument that is no numeral is rejected. */
  lemma MonthArgumentCases(program: string, m: int, rest: seq<string>)
    ensures MonthArgument([program]) == Some(6)
    ensures Decimal.WithinStrLimit(m) ==> MonthArgument([program, Decimal.IntToString(m)] + rest) == Some(m)
    ensures !Decimal.WithinStrLimit(m) ==> MonthArgument([program, Decimal.IntToString(m)] + rest) == None
    ensures MonthArgument([program, "June"] + rest) == None
    ensures MonthArgument([program, ""] + rest) == None
  {
    MonthArgumentOfNumeral(program, m, rest);
    MonthArgumentRejects(program, rest);
  }

  /** Every month a program accepts can be formatted by `str`, so the
      f-strings that build its table and file names never hit the limit. */
  lemma MonthArgumentFormattable(argv: seq<string>)
    requires MonthArgument(argv).Some?
    ensures Decimal.WithinStrLimit(MonthArgument(argv).value)
  {
    if |argv| > 1 {
      Decimal.ParseIntWithinStrLimit(argv[1]);
    } else {
      assert Decimal.NatToString(6) == "6";
    }
  }
}
