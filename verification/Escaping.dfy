/** LIKE escaping: a bound `%value%` pattern matches exactly the texts that contain the
    value up to ASCII case, whatever characters the value holds. */
module Escaping {
  import opened Text
  import opened Sql
  import opened Dialect

  /** The text starts with the value, up to ASCII case. */
  predicate Starts(value: string, text: string) {
    |value| <= |text| && Lower(value) <= Lower(text)
  }

  lemma {:induction false} EscapedThen(value: string, rest: string, text: string)
    ensures Like(Escaped(value) + rest, text)
            <==> Starts(value, text) && Like(rest, text[|value|..])
  {
    var pattern := Escaped(value) + rest;
    if value == [] {
      assert pattern == rest && text[0..] == text;
    } else {
      var special := value[0] in ['\\', '%', '_'];
      var tail := Escaped(value[1..]) + rest;
      assert pattern == (if special then ['\\', value[0]] else [value[0]]) + tail;
      if text == [] {
        assert !Like(pattern, text);
      } else {
        EscapedThen(value[1..], rest, text[1..]);
        assert (if special then pattern[2..] else pattern[1..]) == tail;
        if |value| <= |text| {
          assert text[1..][|value| - 1..] == text[|value|..];
        }
        assert Lower(value) == [LowerChar(value[0])] + Lower(value[1..]);
        assert Lower(text) == [LowerChar(text[0])] + Lower(text[1..]);
      }
    }
  }

  lemma {:induction false} PercentMatchesAll(text: string)
    ensures Like("%", text)
  {
    if text != [] {
      PercentMatchesAll(text[1..]);
    }
  }

  lemma {:induction false} PercentThen(rest: string, text: string)
    ensures Like("%" + rest, text) <==> exists i :: 0 <= i <= |text| && Like(rest, text[i..])
  {
    assert ("%" + rest)[1..] == rest;
    assert text[0..] == text;
    if text != [] {
      PercentThen(rest, text[1..]);
      assert forall i :: 0 <= i < |text| ==> text[1..][i..] == text[i + 1..];
      if exists i :: 0 <= i <= |text| && Like(rest, text[i..]) {
        var i :| 0 <= i <= |text| && Like(rest, text[i..]);
        assert i > 0 ==> Like(rest, text[1..][i - 1..]);
      }
      if exists i :: 0 <= i < |text| && Like(rest, text[1..][i..]) {
        var i :| 0 <= i < |text| && Like(rest, text[1..][i..]);
        assert Like(rest, text[i + 1..]);
      }
    }
  }

  lemma {:induction false} LowerSlice(text: string, i: nat)
    requires i <= |text|
    ensures Lower(text[i..]) == Lower(text)[i..]
  {}

  /** User input inside the wrapped pattern can never act as a wildcard. */
  lemma EscapedPatternIsSubstring(needle: string, text: string)
    ensures Like("%" + Escaped(needle) + "%", text) <==> Contains(Lower(text), Lower(needle))
  {
    assert "%" + Escaped(needle) + "%" == "%" + (Escaped(needle) + "%");
    PercentThen(Escaped(needle) + "%", text);
    forall i | 0 <= i <= |text|
      ensures Like(Escaped(needle) + "%", text[i..]) <==> Lower(needle) <= Lower(text)[i..]
    {
      EscapedThen(needle, "%", text[i..]);
      LowerSlice(text, i);
      if |needle| <= |text| - i {
        PercentMatchesAll(text[i..][|needle|..]);
      }
    }
  }
}
