/** The parsing half of `get_temp` (fancontrol.py): the text printed by `vcgencmd measure_temp`
    is turned into a temperature in degrees Celsius, or into the one parse error the script raises. */
module Temperature {
  import opened Wrappers
  import opened Text
  import opened Decimal

  /** `RuntimeError('Could not parse temperature output.')`: raised for both an `IndexError` and a
      `ValueError` inside the parse expression. */
  datatype ParseError = CouldNotParse

  /** `temp_str.split('=')[1].split('\'')[0]`; `None` is the `IndexError` raised when there is no
      second piece. The second index `[0]` never fails, since a split has at least one piece. */
  function TempText(output: string): Option<string> {
    var parts := Split(output, '=');
    if |parts| < 2 then None else Some(Split(parts[1], '\'')[0])
  }

  /** `get_temp` once the command's output has been captured and decoded. */
  function GetTemp(output: string): Result<real, ParseError> {
    match TempText(output)
    case None => Failure(CouldNotParse)
    case Some(text) =>
      match ParseFloat(text)
      case None => Failure(CouldNotParse)
      case Some(celsius) => Success(celsius)
  }

  /** Independent definition of the field that is read: the text after the first `=`, up to the
      next `=` or `'`, whichever comes first, or to the end. */
  function ValueField(output: string): Option<string> {
    if '=' !in output then None
    else
      var i := |TakeUntil(output, {'='})|;
      Some(TakeUntil(output[i + 1..], {'=', '\''}))
  }

  /** The split-and-index chain reads exactly the value field. */
  lemma {:induction false} TempTextIsValueField(output: string)
    ensures TempText(output) == ValueField(output)
  {
    var parts := Split(output, '=');
    SplitCount(output, '=');
    assert '=' in output <==> multiset(output)['='] > 0;
    if '=' in output {
      var i := |TakeUntil(output, {'='})|;
      var after := output[i + 1..];
      SplitAtFirst(output, '=');
      assert parts[1] == Split(after, '=')[0];
      SplitFirstPiece(after, '=');
      SplitFirstPiece(parts[1], '\'');
      TakeUntilTwice(after, {'='}, {'\''});
      assert {'='} + {'\''} == {'=', '\''};
    }
  }

  /** The parse fails exactly when there is no `=` or when the value field is not a number. */
  lemma {:induction false} GetTempFailure(output: string)
    ensures GetTemp(output).Failure? <==>
      ('=' !in output || ParseFloat(ValueField(output).value) == None)
  {
    TempTextIsValueField(output);
  }

  /** Without any `=` the output is rejected. */
  lemma {:induction false} GetTempNeedsEquals(output: string)
    requires '=' !in output
    ensures GetTemp(output) == Failure(CouldNotParse)
  {
    GetTempFailure(output);
  }

  /** What `vcgencmd measure_temp` prints for a temperature in tenths of a degree. */
  function MeasureTempOutput(tenths: int): string {
    "temp=" + FormatTenths(tenths) + "'C\n"
  }

  /** A reply `temp=<number>` is read as the number, whether what follows the number starts with
      the closing quote or there is nothing after it at all. */
  lemma {:induction false} GetTempOfReply(tenths: int, tail: string)
    requires tail == [] || tail[0] == '\''
    ensures GetTemp("temp=" + FormatTenths(tenths) + tail) == Success(tenths as real / 10.0)
  {
    var f := FormatTenths(tenths);
    var output := "temp=" + f + tail;
    assert output[4] == '=';
    assert TakeUntil(output, {'='}) == "temp" by {
      TakeUntilUnique(output, {'='}, "temp");
    }
    assert output[5..] == f + tail;
    assert TakeUntil(output[5..], {'=', '\''}) == f by {
      TakeUntilUnique(output[5..], {'=', '\''}, f);
    }
    TempTextIsValueField(output);
    ParseFormatTenths(tenths);
  }

  /** Parsing the command's output recovers the temperature it reports. */
  lemma {:induction false} GetTempOfMeasureOutput(tenths: int)
    ensures GetTemp(MeasureTempOutput(tenths)) == Success(tenths as real / 10.0)
  {
    GetTempOfReply(tenths, "'C\n");
  }

  /** The reply `temp=42.8'C\n` is read as 42.8 degrees. */
  lemma {:induction false} SampleOutput(output: string)
    requires output == "temp=42.8'C\n"
    ensures GetTemp(output) == Success(42.8)
  {
    assert output == MeasureTempOutput(428) by {
      assert NatDigits(42) == "42";
    }
    GetTempOfMeasureOutput(428);
  }

  /** A reply without any `=` is rejected. */
  lemma {:induction false} GarbageRejected(output: string)
    requires output == "garbage"
    ensures GetTemp(output) == Failure(CouldNotParse)
  {
    GetTempNeedsEquals(output);
  }

  /** A reply whose number has no closing quote is still accepted: the split on `'` then has a
      single piece, which is the whole number. */
  lemma {:induction false} NoQuoteStillParses(output: string)
    requires output == "temp=42.8"
    ensures GetTemp(output) == Success(42.8)
  {
    assert output == "temp=" + FormatTenths(428) + "" by {
      assert NatDigits(42) == "42";
    }
    GetTempOfReply(428, "");
  }

  /** A reply whose number starts with an information separator (U+001C) is rejected, since `float`
      does not strip that character. */
  lemma {:induction false} SeparatorRejected(output: string)
    requires output == "temp=\U{1C}42.8'C"
    ensures GetTemp(output) == Failure(CouldNotParse)
  {
    var f := output[5..10];
    assert TakeUntil(output, {'='}) == "temp" by {
      TakeUntilUnique(output, {'='}, "temp");
    }
    assert TakeUntil(output[5..], {'=', '\''}) == f by {
      TakeUntilUnique(output[5..], {'=', '\''}, f);
    }
    TempTextIsValueField(output);
    SeparatorNotStripped(f);
  }
}
