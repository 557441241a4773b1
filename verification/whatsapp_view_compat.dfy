/**
 The two formatting entry points as imperative loops over the input, in the shape of
 `extractFlagsForTextView` and `extractFlagsForEditText`: an input index `i`, an output
 index `j`, a growing character list, a growing flag list and one pending start per
 kind holding `INVALID_INDEX` while unset.
 Each is proved equal to the pure scanner of ScanSpec and inherits its properties.
 */
module WhatsappViewCompat {
  import opened Wrappers
  import opened WhatsappUtil
  import opened ScanSpec
  import opened ScanProperties

  /** The pending start an integer slot stands for. */
  function Slot(start: int): Option<nat>
  {
    if start < 0 then None else Some(start)
  }

  /** The display-mode loop: marker characters of recognised pairs are not appended. */
  method DisplayPass(text: seq<char>) returns (characters: seq<char>, flags: seq<Flag>)
    ensures ScanResult(characters, flags) == Scan(Display, text)
  {
    characters := [];
    flags := [];
    var boldStart, strikeStart, italicStart := INVALID_INDEX, INVALID_INDEX, INVALID_INDEX;
    var i, j := 0, 0;
    while i < |text|
      invariant i <= |text|
      invariant j == |characters|
      invariant boldStart >= INVALID_INDEX && strikeStart >= INVALID_INDEX && italicStart >= INVALID_INDEX
      invariant ScanTo(Display, text, i) ==
                State(characters, flags, Pending(Slot(boldStart), Slot(strikeStart), Slot(italicStart)))
    {
      assert ScanTo(Display, text, i + 1) == Step(Display, text, ScanTo(Display, text, i), i);
      var c := text[i];
      if c == BOLD_FLAG {
        if boldStart == INVALID_INDEX {
          var found := HasFlagSameLineLoop(text, BOLD_FLAG, i + 1);
          if found {
            boldStart := j;
            i := i + 1;
            continue;
          }
        } else {
          flags := flags + [Flag(Bold, boldStart, j)];
          boldStart := INVALID_INDEX;
          i := i + 1;
          continue;
        }
      }
      if c == STRIKE_FLAG {
        if strikeStart == INVALID_INDEX {
          var found := HasFlagSameLineLoop(text, STRIKE_FLAG, i + 1);
          if found {
            strikeStart := j;
            i := i + 1;
            continue;
          }
        } else {
          flags := flags + [Flag(Strike, strikeStart, j)];
          strikeStart := INVALID_INDEX;
          i := i + 1;
          continue;
        }
      }
      if c == ITALIC_FLAG {
        if italicStart == INVALID_INDEX {
          var found := HasFlagSameLineLoop(text, ITALIC_FLAG, i + 1);
          if found {
            italicStart := j;
            i := i + 1;
            continue;
          }
        } else {
          flags := flags + [Flag(Italic, italicStart, j)];
          italicStart := INVALID_INDEX;
          i := i + 1;
          continue;
        }
      }
      characters := characters + [c];
      j := j + 1;
      i := i + 1;
    }
  }

  /** Display mode: markers of recognised pairs are dropped from the output. */
  method ExtractFlagsForTextView(text: seq<char>) returns (r: Formatted)
    ensures r.text == Scan(Display, text).text
    ensures r.spans == Annotate(Display, Scan(Display, text).flags)
    ensures |r.text| + 2 * |r.spans| == |text|
    ensures IsSubsequence(r.text, text)
    ensures InBounds(r.text, r.spans)
    ensures forall a :: a in r.spans ==> a.Style?
    ensures NoMarkers(text) ==> r == Formatted(text, [])
  {
    var characters, flags := DisplayPass(text);
    var formatted := GetText(characters);
    assert formatted == characters;
    r := Formatted(formatted, Annotate(Display, flags));

    DisplayLengthAccounting(text);
    DisplayIsSubsequence(text);
    DisplayFlagsInBounds(text);
    if NoMarkers(text) {
      MarkerFreeUnchanged(Display, text);
    }
  }

  /** The edit-mode loop: every character is appended; a start points just past its marker. */
  method EditPass(text: seq<char>) returns (characters: seq<char>, flags: seq<Flag>)
    ensures ScanResult(characters, flags) == Scan(Edit, text)
  {
    characters := [];
    flags := [];
    var boldStart, strikeStart, italicStart := INVALID_INDEX, INVALID_INDEX, INVALID_INDEX;
    var i, j := 0, 0;
    while i < |text|
      invariant i <= |text|
      invariant j == |characters|
      invariant boldStart >= INVALID_INDEX && strikeStart >= INVALID_INDEX && italicStart >= INVALID_INDEX
      invariant ScanTo(Edit, text, i) ==
                State(characters, flags, Pending(Slot(boldStart), Slot(strikeStart), Slot(italicStart)))
    {
      assert ScanTo(Edit, text, i + 1) == Step(Edit, text, ScanTo(Edit, text, i), i);
      var c := text[i];
      if c == BOLD_FLAG {
        if boldStart == INVALID_INDEX {
          var found := HasFlagSameLineLoop(text, BOLD_FLAG, i + 1);
          if found {
            boldStart := j + 1;
          }
        } else {
          flags := flags + [Flag(Bold, boldStart, j)];
          boldStart := INVALID_INDEX;
        }
      } else if c == STRIKE_FLAG {
        if strikeStart == INVALID_INDEX {
          var found := HasFlagSameLineLoop(text, STRIKE_FLAG, i + 1);
          if found {
            strikeStart := j + 1;
          }
        } else {
          flags := flags + [Flag(Strike, strikeStart, j)];
          strikeStart := INVALID_INDEX;
        }
      } else if c == ITALIC_FLAG {
        if italicStart == INVALID_INDEX {
          var found := HasFlagSameLineLoop(text, ITALIC_FLAG, i + 1);
          if found {
            italicStart := j + 1;
          }
        } else {
          flags := flags + [Flag(Italic, italicStart, j)];
          italicStart := INVALID_INDEX;
        }
      }
      characters := characters + [c];
      j := j + 1;
      i := i + 1;
    }
  }

  /** Edit mode: every character is kept; recognised markers are greyed. */
  method ExtractFlagsForEditText(text: seq<char>) returns (r: Formatted)
    ensures r.text == Scan(Edit, text).text
    ensures r.spans == Annotate(Edit, Scan(Edit, text).flags)
    ensures r.text == text
    ensures |r.spans| == 3 * |Scan(Display, text).flags|
    ensures InBounds(r.text, r.spans)
    ensures forall a :: a in r.spans && a.Grey? ==>
              a.end == a.start + 1 && KindOf(text[a.start]).Some?
    ensures forall a :: a in r.spans && a.Style? ==>
              1 <= a.start < a.end < |text| &&
              text[a.start - 1] == Marker(a.kind) && text[a.end] == Marker(a.kind)
  {
    var characters, flags := EditPass(text);
    var formatted := GetText(characters);
    assert formatted == characters;
    r := Formatted(formatted, Annotate(Edit, flags));

    EditKeepsText(text);
    EditAnnotationsFramed(text);
    ModesAgree(text);
  }
}
