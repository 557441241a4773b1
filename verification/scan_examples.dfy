/**
 Concrete scans. They pin the model to the behaviour of `extractFlagsForTextView` and
 `extractFlagsForEditText` on small inputs, including the exclusive range ends they
 record and the one place where re-scanning display output is not a no-op.
 */
module ScanExamples {
  import opened Wrappers
  import opened WhatsappUtil
  import opened ScanSpec

  /** `*yo*` is bold over output range [3, 5) once its markers are dropped. */
  lemma DisplayBoldWord()
    ensures Scan(Display, "hi *yo*") == ScanResult("hi yo", [Flag(Bold, 3, 5)])
  {
    var t := "hi *yo*";
    assert HasFlagSameLine(t, '*', 4);
  }

  /** In Edit mode the markers stay and are the characters just outside the range. */
  lemma EditBoldWord()
    ensures Scan(Edit, "*bold*") == ScanResult("*bold*", [Flag(Bold, 1, 5)])
  {
    var t := "*bold*";
    assert FirstStop(t, '*', 3) == 5;
    assert HasFlagSameLine(t, '*', 1);
    assert ScanTo(Edit, t, 1) == State("*", [], Pending(Some(1), None, None));
    assert ScanTo(Edit, t, 3) == State("*bo", [], Pending(Some(1), None, None));
    assert ScanTo(Edit, t, 5) == State("*bold", [], Pending(Some(1), None, None));
  }

  /** A marker without a closer on its line is kept as a literal. */
  lemma NoCloserOnLine()
    ensures Scan(Display, "*a\nb*") == ScanResult("*a\nb*", [])
  {
    var t := "*a\nb*";
    assert !HasFlagSameLine(t, '*', 1);
    assert !HasFlagSameLine(t, '*', 5);
  }

  /** Pairs whose interiors hold only other consumed markers give empty ranges. */
  lemma EmptyRanges()
    ensures Scan(Display, "*~_~_*") == ScanResult("", [Flag(Strike, 0, 0), Flag(Italic, 0, 0), Flag(Bold, 0, 0)])
  {
    var t := "*~_~_*";
    assert HasFlagSameLine(t, '*', 1);
    assert HasFlagSameLine(t, '~', 2);
    assert HasFlagSameLine(t, '_', 3);
  }

  /**
   Re-scanning display output can change it: `**y*x*` displays as `*yx*` with `y`
   bold, and scanning `*yx*` again drops both remaining markers.
   */
  lemma RescanIsNotFixedPoint()
    ensures Scan(Display, "**y*x*") == ScanResult("*yx*", [Flag(Bold, 1, 2)])
    ensures Scan(Display, "*yx*") == ScanResult("yx", [Flag(Bold, 0, 2)])
    ensures Scan(Display, Scan(Display, "**y*x*").text) != Scan(Display, "**y*x*")
  {
    var t := "**y*x*";
    assert !HasFlagSameLine(t, '*', 1);
    assert HasFlagSameLine(t, '*', 2);
    assert !HasFlagSameLine(t, '*', 6);
    var u := "*yx*";
    assert HasFlagSameLine(u, '*', 1);
  }
}
