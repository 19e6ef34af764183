/**
 * `detect_unit_scale`: the power of ten that turns a decimal length written as
 * text into an integer, decided by how many characters follow the first '.'.
 */
module Utils {

  function Pow10(k: nat): (r: nat)
    ensures r >= 1
  {
    if k == 0 then 1 else 10 * Pow10(k - 1)
  }

  /** The first index of `c` in `s`, or `|s|` when `c` does not occur. */
  function IndexOf(s: string, c: char): (r: nat)
    ensures r <= |s|
    ensures r < |s| ==> s[r] == c
    ensures r == |s| <==> c !in s
    ensures forall k :: 0 <= k < r ==> s[k] != c
  {
    if |s| == 0 then 0
    else if s[0] == c then 0
    else 1 + IndexOf(s[1..], c)
  }

  /**
   * Python's `s.split(sep)`: the pieces between separators, so always one more
   * piece than there are separators (an empty string gives `[""]`).
   */
  function Split(s: string, sep: char): (r: seq<string>)
    ensures |r| >= 1
    ensures sep !in s ==> r == [s]
    ensures sep in s ==> |r| >= 2
  {
    if |s| == 0 then [""]
    else
      var rest := Split(s[1..], sep);
      if s[0] == sep then [""] + rest
      else
        assert s == [s[0]] + s[1..];
        [[s[0]] + rest[0]] + rest[1..]
  }

  /** `detect_unit_scale(value)`: `10 ** len(value.split('.')[1])` when there is a '.', else 1. */
  function DetectUnitScale(value: string): nat {
    if '.' in value then Pow10(|Split(value, '.')[1]|) else 1
  }

  /** The decimal digits as a reader sees them: after the first '.', up to the next '.' or the end. */
  function Decimals(value: string): string
    requires '.' in value
  {
    var rest := value[IndexOf(value, '.') + 1..];
    rest[..IndexOf(rest, '.')]
  }

  /** The first piece of a split ends at the first separator; the other pieces split what follows it. */
  lemma {:induction false} SplitAtFirst(s: string, sep: char)
    ensures Split(s, sep)[0] == s[..IndexOf(s, sep)]
    ensures sep in s ==> Split(s, sep)[1..] == Split(s[IndexOf(s, sep) + 1..], sep)
  {
    if |s| > 0 && s[0] != sep {
      SplitAtFirst(s[1..], sep);
      assert s[..IndexOf(s, sep)] == [s[0]] + s[1..][..IndexOf(s[1..], sep)];
      if sep in s {
        assert sep in s[1..];
        assert s[IndexOf(s, sep) + 1..] == s[1..][IndexOf(s[1..], sep) + 1..];
      }
    }
  }

  /**
   * The scale is 1 without a '.', and otherwise ten to the number of characters
   * between the first '.' and the next '.' (or the end of the text).
   */
  lemma DetectUnitScaleSpec(value: string)
    ensures '.' !in value ==> DetectUnitScale(value) == 1
    ensures '.' in value ==> DetectUnitScale(value) == Pow10(|Decimals(value)|)
  {
    if '.' in value {
      SplitAtFirst(value, '.');
      var rest := value[IndexOf(value, '.') + 1..];
      SplitAtFirst(rest, '.');
      assert Split(value, '.')[1] == Split(rest, '.')[0];
    }
  }

  /** The scale is always a power of ten, at least 1. */
  lemma DetectUnitScaleIsPowerOfTen(value: string)
    ensures exists k: nat :: DetectUnitScale(value) == Pow10(k)
  {
    if '.' in value {
      assert DetectUnitScale(value) == Pow10(|Split(value, '.')[1]|);
    } else {
      assert DetectUnitScale(value) == Pow10(0);
    }
  }

  /**
   * The scale follows the characters, not the number: "1.5" and "1.50" are the
   * same number with different scales; a trailing '.' and a second '.' count as
   * the text shows them.
   */
  lemma DetectUnitScaleExamples()
    ensures DetectUnitScale("12") == 1
    ensures DetectUnitScale("12.") == 1
    ensures DetectUnitScale("1.5") == 10
    ensures DetectUnitScale("1.50") == 100
    ensures DetectUnitScale("1.25.7") == 100
  {
    DetectUnitScaleSpec("12.");
    DetectUnitScaleSpec("1.5");
    DetectUnitScaleSpec("1.50");
    DetectUnitScaleSpec("1.25.7");
    assert "12."[IndexOf("12.", '.') + 1..] == "";
    assert "1.5"[IndexOf("1.5", '.') + 1..] == "5";
    assert "1.50"[IndexOf("1.50", '.') + 1..] == "50";
    assert "1.25.7"[IndexOf("1.25.7", '.') + 1..] == "25.7";
    assert IndexOf("25.7", '.') == 2;
  }
}
