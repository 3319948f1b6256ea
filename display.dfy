/**
 * Editing of the calculator display text by the entry keys, shared by both
 * keypad windows (calculator/gui.py and calculator/gui_new.py).
 */
module Display {
  import opened Results
  import opened Text
  import opened Numerals

  /**
   * A digit key: after a result or an operator (`reset`) the digit replaces
   * the display; otherwise it replaces a lone `0` or is appended.
   */
  function EnterDigit(display: string, reset: bool, d: char): (r: string)
    requires IsDigit(d)
    ensures r != [] && r[|r| - 1] == d
    ensures reset || display == "0" ==> r == [d]
    ensures !reset && display != "0" ==> r[..|r| - 1] == display
  {
    if reset then [d] else (if display != "0" then display else "") + [d]
  }

  /** The `.` key: appends a decimal point unless the display already has one. */
  function EnterPoint(display: string): (r: string)
    ensures '.' in r
    ensures '.' in display ==> r == display
    ensures |display| <= |r| <= |display| + 1 && r[..|display|] == display
  {
    if '.' in display then display else display + "."
  }

  /** The `←` key: drops the last character, or shows `0` instead of emptying the display. */
  function Backspace(display: string): (r: string)
    ensures r != []
    ensures |display| > 1 ==> r + [display[|display| - 1]] == display
    ensures |display| <= 1 ==> r == "0"
  {
    if |display| > 1 then display[..|display| - 1] else "0"
  }

  /** The display without a leading `-`. */
  function Unsigned(display: string): string {
    if display != "" && display[0] == '-' then display[1..] else display
  }

  /** The `±` key: adds or removes a leading `-`, except on an empty display or `0`. */
  function ToggleSign(display: string): (r: string)
    ensures display == "" || display == "0" ==> r == display
    ensures display != "" && display != "0" ==> r == "-" + display || display == "-" + r
    ensures display != "" && display != "0" ==> (display[0] == '-' <==> |r| < |display|)
  {
    if display != "" && display != "0" then
      if display[0] == '-' then display[1..] else "-" + display
    else display
  }

  /**
   * Typing a digit after an integer shifts its value one decimal place: the
   * display stays a run of digits, worth ten times the old value plus the
   * digit (and `ParseDigits` reads any run of digits as its value).
   */
  lemma EnterDigitShifts(display: string, d: char)
    requires |display| > 0 && AllDigits(display) && IsDigit(d)
    ensures AllDigits(EnterDigit(display, false, d))
    ensures DigitsValue(EnterDigit(display, false, d)) == DigitsValue(display) * 10 + DigitValue(d)
  {
    var t := EnterDigit(display, false, d);
    if display == "0" {
      ZeroValue();
      assert t == [d] && t[..0] == [];
    } else {
      assert t == display + [d];
      DigitsAppend(display, d);
    }
  }

  /** After a result or an operator, a digit key makes the display read that digit alone. */
  lemma EnterDigitAfterReset(display: string, d: char)
    requires IsDigit(d)
    ensures ParseNum(EnterDigit(display, true, d)) == Some(DigitValue(d) as real)
  {
    SingleDigit(d);
  }

  /** The display `0` is worth zero. */
  lemma ZeroValue()
    ensures AllDigits("0") && DigitsValue("0") == 0
  {
    assert "0"[..0] == [];
  }

  /** A digit appended to a run of digits shifts its value one place. */
  lemma DigitsAppend(display: string, d: char)
    requires AllDigits(display) && IsDigit(d)
    ensures AllDigits(display + [d])
    ensures DigitsValue(display + [d]) == DigitsValue(display) * 10 + DigitValue(d)
  {
    var s := display + [d];
    assert AllDigits(s) by {
      forall i | 0 <= i < |s| ensures IsDigit(s[i]) {
        if i < |display| { assert s[i] == display[i]; }
      }
    }
    assert s[..|s| - 1] == display;
  }

  /** One digit reads as its own value. */
  lemma SingleDigit(d: char)
    requires IsDigit(d)
    ensures ParseNum([d]) == Some(DigitValue(d) as real)
  {
    ParseDigits([d]);
    assert [d][..0] == [];
  }

  /** Pressing `←` right after typing a digit restores the display. */
  lemma BackspaceUndoesDigit(display: string, d: char)
    requires display != [] && IsDigit(d)
    ensures Backspace(EnterDigit(display, false, d)) == display
  {
    if display != "0" {
      assert (display + [d])[..|display|] == display;
    }
  }

  /**
   * The `.` key leaves exactly one decimal point on a display that had at
   * most one, and pressing it again changes nothing.
   */
  lemma EnterPointOnce(display: string)
    requires Count('.', display) <= 1
    ensures Count('.', EnterPoint(display)) == 1
    ensures EnterPoint(EnterPoint(display)) == EnterPoint(display)
  {
    CountPositive('.', display);
    if '.' !in display {
      CountConcat('.', display, ".");
      assert '.' in display + "." by {
        assert (display + ".")[|display|] == '.';
      }
    }
  }

  /** A number that parses has no sign after its first character. */
  lemma UnsignedHasNoSign(t: string)
    requires ParseUnsigned(t).Some?
    ensures t != [] && t[0] != '-' && t[0] != '+'
  {
    var k := IndexOfAny(t, "eE");
    var m := t[..k];
    var p := IndexOfAny(m, ".");
    assert AllDigits(m[..p]);
    if k > 0 && p > 0 {
      assert IsDigit(m[..p][0]);
      assert t[0] == m[..p][0];
    }
  }

  /** `±` negates the displayed value of any display that parses and has no leading `+`. */
  lemma ToggleSignNegates(display: string, v: real)
    requires ParseNum(display) == Some(v)
    requires display != [] && display[0] != '+'
    ensures ParseNum(ToggleSign(display)) == Some(-v)
  {
    if display == "0" {
      ZeroValue();
      ParseDigits(display);
    } else if display[0] == '-' {
      RemoveMinus(display, v);
    } else {
      AddMinus(display, v);
    }
  }

  /** Dropping the leading `-` of a number negates it. */
  lemma RemoveMinus(display: string, v: real)
    requires ParseNum(display) == Some(v)
    requires display != [] && display[0] == '-'
    ensures ParseNum(display[1..]) == Some(-v)
  {
    var t := display[1..];
    assert ParseUnsigned(t).Some?;
    UnsignedHasNoSign(t);
  }

  /** Prefixing `-` to a number without a sign negates it. */
  lemma AddMinus(display: string, v: real)
    requires ParseNum(display) == Some(v)
    requires display != [] && display[0] != '-' && display[0] != '+'
    ensures ParseNum("-" + display) == Some(-v)
  {
    var t := "-" + display;
    assert t[1..] == display;
    assert ParseUnsigned(display) == Some(v);
  }

  /**
   * `±` twice restores the display when neither it nor its unsigned part is
   * empty or `0`, and the unsigned part has no `-` of its own.
   */
  lemma ToggleSignTwice(display: string)
    requires display != "" && display != "0"
    requires Unsigned(display) != "" && Unsigned(display) != "0" && Unsigned(display)[0] != '-'
    ensures ToggleSign(ToggleSign(display)) == display
  {
    if display[0] == '-' {
      assert "-" + display[1..] == display;
    } else {
      assert ("-" + display)[1..] == display;
    }
  }

  /**
   * The `.` key does not change the value of an integer display: `float`
   * reads `12.` as `12`.
   */
  lemma EnterPointKeepsValue(display: string)
    requires ParseNum(display).Some?
    requires '.' !in display && 'e' !in display && 'E' !in display
    ensures ParseNum(EnterPoint(display)) == ParseNum(display)
  {
    var s := display + ".";
    var signed := display[0] == '-' || display[0] == '+';
    var t := if signed then display[1..] else display;
    assert s[0] == display[0];
    if signed {
      assert s[1..] == t + ".";
    } else {
      assert s == t + ".";
    }
    UnsignedPoint(t);
  }

  /** An unsigned number without point or exponent reads the same with a trailing point. */
  lemma UnsignedPoint(t: string)
    requires '.' !in t && 'e' !in t && 'E' !in t
    ensures ParseUnsigned(t + ".") == ParseUnsigned(t)
  {
    var s := t + ".";
    IndexOfAnyAbsent(t, "eE");
    assert forall i :: 0 <= i < |s| ==> s[i] !in "eE" by {
      forall i | 0 <= i < |s| ensures s[i] !in "eE" {
        if i < |t| { assert s[i] == t[i]; } else { assert s[i] == '.'; }
      }
    }
    IndexOfAnyAbsent(s, "eE");
    assert s[..|s|] == s && t[..|t|] == t;
    IndexOfAnyAbsent(t, ".");
    assert IndexOfAny(s, ".") == |t| by {
      assert s[..|t|] == t;
      assert s[|t|] == '.';
      IndexOfAnyPrefix(s, ".", |t|);
    }
    assert s[..|t|] == t;
    assert s[|t| + 1..] == [];
  }
}
