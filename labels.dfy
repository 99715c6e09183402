/** The axis labels of the text interface: Board._index_to_label in src/board.py writes 0..9
    as digits and 10 upwards as letters from 'A'; GameUI._label_to_coord in src/game.py reads
    them back. Characters are modelled as ASCII: a digit is '0'..'9', a letter 'A'..'Z' or
    'a'..'z'. */
module Labels {
  import opened Stones

  predicate IsDigit(ch: char) {
    '0' <= ch <= '9'
  }

  predicate IsLetter(ch: char) {
    'A' <= ch <= 'Z' || 'a' <= ch <= 'z'
  }

  /** str.isnumeric: at least one character, all of them digits. A numeric string is never
      alphabetic, so at most one branch of _label_to_coord applies. */
  predicate IsNumeric(s: string): (r: bool)
    ensures r ==> |s| > 0 && !IsLetter(s[0]) && !IsAlpha(s)
  {
    |s| > 0 && forall i :: 0 <= i < |s| ==> IsDigit(s[i])
  }

  /** str.isalpha: at least one character, all of them letters. Every letter lies at or
      above 'A' in code-point order. */
  predicate IsAlpha(s: string): (r: bool)
    ensures r ==> |s| > 0 && forall i :: 0 <= i < |s| ==> 'A' <= s[i]
  {
    |s| > 0 && forall i :: 0 <= i < |s| ==> IsLetter(s[i])
  }

  /** int() of a string of digits; leading zeros are allowed. */
  function DecimalValue(s: string): (v: nat)
    requires forall i :: 0 <= i < |s| ==> IsDigit(s[i])
    ensures |s| == 1 ==> v == (s[0] as int) - ('0' as int)
  {
    if |s| == 0 then 0
    else
      assert IsDigit(s[|s| - 1]);
      DecimalValue(s[..|s| - 1]) * 10 + ((s[|s| - 1] as int) - ('0' as int))
  }

  /** Python's string comparison a < b: code point by code point, a proper prefix first. It
      is irreflexive, and a string comes before every longer string it starts. */
  function LexLess(a: string, b: string): (r: bool)
    ensures r ==> a != b
    ensures |a| < |b| && a == b[..|a|] ==> r
    ensures |a| > 0 && |b| > 0 && a[0] < b[0] ==> r
  {
    if |a| == 0 then |b| > 0
    else if |b| == 0 then false
    else if a[0] != b[0] then a[0] < b[0]
    else LexLess(a[1..], b[1..])
  }

  /** _index_to_label: a digit below 10, otherwise the character 10 places before 'A' plus idx. */
  function IndexToLabel(idx: nat): (s: string)
    requires idx + 55 < 0xD800
    ensures |s| == 1
    ensures idx <= 9 ==> IsDigit(s[0]) && (s[0] as int) - ('0' as int) == idx
    ensures idx >= 10 ==> (s[0] as int) == idx - 10 + ('A' as int)
  {
    if idx < 10 then [(idx + ('0' as int)) as char]
    else [(idx - 10 + ('A' as int)) as char]
  }

  /** _label_to_coord. A numeric label reads as its value and must stay below 10. A letter
      label passes the `label >= 'A'` test and is read by ord(), which raises TypeError on more
      than one character; its value is 10 plus its distance from 'A'. Anything else is
      rejected. */
  function LabelToCoord(text: string): (r: Result<int>)
    ensures r.Ok? ==> 0 <= r.value < 10 || 10 <= r.value < 36 || 42 <= r.value < 68
    ensures IsNumeric(text) ==> (r.Ok? <==> DecimalValue(text) < 10)
    ensures r.Err? ==> r.error == InvalidInput || r.error == TypeError
  {
    if IsNumeric(text) then
      var coord := DecimalValue(text);
      if coord >= 10 then Err(InvalidInput) else Ok(coord)
    else if IsAlpha(text) && !LexLess(text, "A") then
      if |text| != 1 then Err(TypeError)
      else
        var diff := (text[0] as int) - ('A' as int);
        if diff < 0 then Err(InvalidInput) else Ok(10 + diff)
    else Err(InvalidInput)
  }

  /** The `label >= 'A'` test never rejects a string of letters. */
  lemma LettersPassGuard(text: string)
    requires IsAlpha(text)
    ensures !LexLess(text, "A")
  {
  }

  /** Every label _index_to_label writes for a coordinate of a board of up to 36 lines reads
      back as that coordinate. */
  lemma LabelRoundTrip(i: nat)
    requires i < 36
    ensures LabelToCoord(IndexToLabel(i)) == Ok(i)
  {
    var s := IndexToLabel(i);
    if i < 10 {
      assert IsNumeric(s);
    } else {
      assert IsLetter(s[0]) && !IsDigit(s[0]);
      assert IsAlpha(s) && !IsNumeric(s);
    }
  }

  /** Decoding is canonical: the label written back for a decoded value decodes to the same
      value. */
  lemma LabelCanonical(text: string)
    requires LabelToCoord(text).Ok?
    ensures var v := LabelToCoord(text).value;
      v + 55 < 0xD800 && LabelToCoord(IndexToLabel(v)) == Ok(v)
  {
    var v := LabelToCoord(text).value;
    if v < 36 {
      LabelRoundTrip(v);
    } else {
      var s := IndexToLabel(v);
      assert 'a' <= s[0] <= 'z';
      assert IsAlpha(s) && !IsNumeric(s);
    }
  }

  /** A numeric label of 10 or more is rejected with InvalidInputException. */
  lemma NumericTooLarge(text: string)
    requires IsNumeric(text) && DecimalValue(text) >= 10
    ensures LabelToCoord(text) == Err(InvalidInput)
  {
  }

  /** A single letter is read back as the index whose label it is; a longer run of letters
      raises TypeError. */
  lemma LetterLabels(text: string)
    requires IsAlpha(text)
    ensures |text| == 1 ==> LabelToCoord(text).Ok? && IndexToLabel(LabelToCoord(text).value) == text
    ensures |text| > 1 ==> LabelToCoord(text) == Err(TypeError)
  {
    assert !IsDigit(text[0]);
    LettersPassGuard(text);
    if |text| == 1 {
      var v := LabelToCoord(text).value;
      assert IndexToLabel(v)[0] == text[0];
    }
  }
}
