/**
 * `DiceSet::Dice` of greed/diceset.rb: the values of the last roll, their
 * text form, and rolling. Ruby's `rand(1..6)` is a choice of any face.
 */
module DiceSets {

  /** The decimal digit for `d`. */
  function DigitChar(d: int): char
    requires 0 <= d <= 9
  {
    "0123456789"[d]
  }

  /** The decimal text of a natural number, as Ruby's `to_s` writes it. */
  function NatString(n: nat): (s: string)
    ensures |s| > 0 && forall i :: 0 <= i < |s| ==> '0' <= s[i] <= '9'
    ensures n < 10 ==> s == [DigitChar(n)]
    ensures n >= 10 ==> s[0] != '0'
    decreases n
  {
    if n < 10 then [DigitChar(n)] else NatString(n / 10) + [DigitChar(n % 10)]
  }

  /** The number a string of decimal digits stands for, most significant digit first. */
  function DigitsValue(s: string): nat
    requires forall i :: 0 <= i < |s| ==> '0' <= s[i] <= '9'
    decreases |s|
  {
    if |s| == 0 then 0 else 10 * DigitsValue(s[..|s| - 1]) + (s[|s| - 1] as int - '0' as int)
  }

  /** Each digit character stands for its own value. */
  lemma DigitCharValue(d: int)
    requires 0 <= d <= 9
    ensures DigitChar(d) as int - '0' as int == d
  {
    assert d in {0, 1, 2, 3, 4, 5, 6, 7, 8, 9};
  }

  /** Reading the decimal text back gives the number: the text spells `n`. */
  lemma {:induction false} NatStringSpellsValue(n: nat)
    ensures DigitsValue(NatString(n)) == n
    decreases n
  {
    var s := NatString(n);
    if n < 10 {
      DigitCharValue(n);
      assert s[..0] == [];
    } else {
      NatStringSpellsValue(n / 10);
      DigitCharValue(n % 10);
      assert s[..|s| - 1] == NatString(n / 10);
    }
  }

  /** The text `"#{x}"` interpolates: a minus sign before negative numbers. */
  function IntString(x: int): (s: string)
    ensures |s| > 0 && forall i :: 0 <= i < |s| ==> s[i] == '-' || '0' <= s[i] <= '9'
  {
    if x < 0 then "-" + NatString(-x) else NatString(x)
  }

  const SEPARATOR: string := ", "

  /** The values written out with `", "` between neighbours and nowhere else. */
  function Join(values: seq<int>): string
    decreases |values|
  {
    if |values| == 0 then ""
    else if |values| == 1 then IntString(values[0])
    else IntString(values[0]) + SEPARATOR + Join(values[1..])
  }

  /** What `to_s` has built after appending `"#{x}, "` for each of `values`. */
  function Terminated(values: seq<int>): string
    decreases |values|
  {
    if |values| == 0 then "" else Terminated(values[..|values| - 1]) + IntString(values[|values| - 1]) + SEPARATOR
  }

  /** Ruby's `String#chomp(suffix)`: `s` without `suffix` at its end, or `s` itself if it does not end so. */
  function Chomp(s: string, suffix: string): (r: string)
    ensures |suffix| <= |s| && s[|s| - |suffix|..] == suffix ==> r + suffix == s
    ensures !(|suffix| <= |s| && s[|s| - |suffix|..] == suffix) ==> r == s
  {
    if |suffix| <= |s| && s[|s| - |suffix|..] == suffix then s[..|s| - |suffix|] else s
  }

  /** Joining one more value adds a separator and the value's text. */
  lemma {:induction false} JoinSnoc(values: seq<int>, x: int)
    requires |values| > 0
    ensures Join(values + [x]) == Join(values) + SEPARATOR + IntString(x)
    decreases |values|
  {
    if |values| == 1 {
      assert (values + [x])[1..] == [x];
    } else {
      assert (values + [x])[1..] == values[1..] + [x];
      JoinSnoc(values[1..], x);
    }
  }

  /** After the loop of `to_s`, the text is the join followed by one trailing separator. */
  lemma {:induction false} TerminatedIsJoinAndSeparator(values: seq<int>)
    requires |values| > 0
    ensures Terminated(values) == Join(values) + SEPARATOR
    decreases |values|
  {
    var init, last := values[..|values| - 1], values[|values| - 1];
    if |init| > 0 {
      assert init + [last] == values;
      var x := IntString(last);
      calc {
        Terminated(values);
        Terminated(init) + x + SEPARATOR;
        { TerminatedIsJoinAndSeparator(init); }
        Join(init) + SEPARATOR + x + SEPARATOR;
        { JoinSnoc(init, last); }
        Join(values) + SEPARATOR;
      }
    }
  }

  /** A value from 0 to 9 is written as its one digit. */
  lemma DigitString(d: int)
    requires 0 <= d <= 9
    ensures IntString(d) == [DigitChar(d)]
  {
    assert NatString(d) == [DigitChar(d)];
  }

  /** Die faces are written as one digit each, at every third character of the join, with `", "` between. */
  lemma {:induction false} JoinOfDigits(values: seq<int>)
    requires forall i :: 0 <= i < |values| ==> 0 <= values[i] <= 9
    ensures |values| > 0 ==> |Join(values)| == 3 * |values| - 2
    ensures forall i :: 0 <= i < |values| ==> Join(values)[3 * i] == DigitChar(values[i])
    ensures forall i :: 0 <= i < |values| - 1 ==> Join(values)[3 * i + 1] == ',' && Join(values)[3 * i + 2] == ' '
    decreases |values|
  {
    if |values| == 1 {
      DigitString(values[0]);
    } else if |values| > 1 {
      JoinOfDigits(values[1..]);
      DigitString(values[0]);
      assert Join(values) == [DigitChar(values[0]), ',', ' '] + Join(values[1..]);
      DigitsAfterFirst(Join(values), Join(values[1..]), values);
    }
  }

  /** The layout of the join carries over from the join of the tail to the whole, three characters on. */
  lemma DigitsAfterFirst(j: string, tail: string, values: seq<int>)
    requires |values| > 1 && forall i :: 0 <= i < |values| ==> 0 <= values[i] <= 9
    requires j == [DigitChar(values[0]), ',', ' '] + tail
    requires |tail| == 3 * (|values| - 1) - 2
    requires forall i :: 0 <= i < |values| - 1 ==> tail[3 * i] == DigitChar(values[1..][i])
    requires forall i :: 0 <= i < |values| - 2 ==> tail[3 * i + 1] == ',' && tail[3 * i + 2] == ' '
    ensures |j| == 3 * |values| - 2
    ensures forall i :: 0 <= i < |values| ==> j[3 * i] == DigitChar(values[i])
    ensures forall i :: 0 <= i < |values| - 1 ==> j[3 * i + 1] == ',' && j[3 * i + 2] == ' '
  {
    forall i | 1 <= i < |values|
      ensures j[3 * i] == DigitChar(values[i])
    {
      assert j[3 * i] == tail[3 * (i - 1)];
      assert values[1..][i - 1] == values[i];
    }
    forall i | 1 <= i < |values| - 1
      ensures j[3 * i + 1] == ',' && j[3 * i + 2] == ' '
    {
      assert j[3 * i + 1] == tail[3 * (i - 1) + 1];
      assert j[3 * i + 2] == tail[3 * (i - 1) + 2];
    }
  }

  class Dice {
    /** `@values`: the faces of the last roll. */
    var values: seq<int>

    /** `initialize`: no values yet. */
    constructor ()
      ensures values == []
    {
      values := [];
    }

    /**
     * `to_s`: append `"#{x}, "` for every value, then `chomp(", ")`, which
     * leaves the values separated by `", "` and no trailing separator.
     */
    method ToS() returns (st: string)
      ensures st == Join(values)
    {
      st := "";
      for i := 0 to |values|
        invariant st == Terminated(values[..i])
      {
        assert values[..i + 1][..i] == values[..i];
        st := st + IntString(values[i]) + SEPARATOR;
      }
      assert values[..|values|] == values;
      if |values| > 0 {
        TerminatedIsJoinAndSeparator(values);
        assert (Join(values) + SEPARATOR)[|st| - |SEPARATOR|..] == SEPARATOR;
        assert (Join(values) + SEPARATOR)[..|st| - |SEPARATOR|] == Join(values);
      }
      st := Chomp(st, SEPARATOR);
    }

    /** `roll(n)`: replace the values by `n` new faces, each from 1 to 6 (none for `n` below one). */
    method Roll(n: int)
      modifies this
      ensures |values| == if n < 0 then 0 else n
      ensures forall i :: 0 <= i < |values| ==> 1 <= values[i] <= 6
    {
      values := [];
      var k := 0;
      while k < n
        invariant |values| == k && (n >= 0 ==> k <= n) && (n < 0 ==> k == 0)
        invariant forall i :: 0 <= i < |values| ==> 1 <= values[i] <= 6
        decreases n - k
      {
        var face :| 1 <= face <= 6;
        values := values + [face];
        k := k + 1;
      }
    }
  }

  /** The three `to_s` examples of greed/test/test_diceset.rb. */
  method ToSExamples() returns (three: string, one: string, none: string)
    ensures three == "1, 2, 3" && one == "5" && none == ""
  {
    var d := new Dice();
    d.values := [1, 2, 3];
    three := d.ToS();
    assert Join([1, 2, 3]) == "1" + SEPARATOR + Join([2, 3]);
    d.values := [5];
    one := d.ToS();
    d.values := [];
    none := d.ToS();
  }
}
