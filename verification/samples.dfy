/**
 * Worked inputs in the shapes the site prints, with what the cleaner
 * returns for each. A space used as a thousands separator cuts the number:
 * the cleaner keeps only the digits before it.
 */
module Samples {
  import opened Wrappers
  import opened Text
  import opened NumberScan
  import opened Cleaning

  /** `nettoyer_valeur("1 000 €")` stops at the space: "1". */
  lemma ValueWithSpacedThousands()
    ensures CleanValue(Some("1 000 \U{20AC}")) == Some("1")
  {
    DropEuro();
    StripOneTrailing();
    ReplaceCharAbsent("1 000", ',', '.');
    NormaliseSteps("1 000 \U{20AC}", "1 000 ", "1 000", "1 000");
    FirstNumber();
    SearchAtStart("1 000", 1);
    CleanValueSteps("1 000 \U{20AC}", "1 000", Span(0, 1));
    SpacedSlice();
  }

  lemma SpacedSlice()
    ensures "1 000"[0..1] == "1"
  {
  }

  lemma DropEuro()
    ensures RemoveChar("1 000 \U{20AC}", Euro) == "1 000 "
  {
    assert "1 000 \U{20AC}" == "1 000 " + [Euro];
    RemoveCharAppend("1 000 ", [Euro], Euro);
    RemoveCharAbsent("1 000 ", Euro);
  }

  lemma StripOneTrailing()
    ensures Strip("1 000 ") == "1 000"
  {
    assert LeadingSpaces("1 000 ") == 0;
    assert TrailingSpaces("1 000 ") == 1 by {
      assert "1 000 "[..5] == "1 000";
    }
  }

  lemma FirstNumber()
    ensures NumberEnd("1 000", 0) == Some(1)
  {
  }

  /** A comma thousands separator becomes a dot, and the number ends where a
      second dot would start: `nettoyer_valeur("1,300.50 €")` is "1.300". */
  lemma ValueWithCommaThousands()
    ensures CleanValue(Some("1,300.50 \U{20AC}")) == Some("1.300")
  {
    DropEuroComma();
    StripOneTrailingComma();
    CommaToDot();
    NormaliseSteps("1,300.50 \U{20AC}", "1,300.50 ", "1,300.50", "1.300.50");
    FirstNumberDotted();
    SearchAtStart("1.300.50", 5);
    CleanValueSteps("1,300.50 \U{20AC}", "1.300.50", Span(0, 5));
    DottedSlice();
  }

  lemma DottedSlice()
    ensures "1.300.50"[0..5] == "1.300"
  {
  }

  lemma DropEuroComma()
    ensures RemoveChar("1,300.50 \U{20AC}", Euro) == "1,300.50 "
  {
    assert "1,300.50 \U{20AC}" == "1,300.50 " + [Euro];
    RemoveCharAppend("1,300.50 ", [Euro], Euro);
    RemoveCharAbsent("1,300.50 ", Euro);
  }

  lemma StripOneTrailingComma()
    ensures Strip("1,300.50 ") == "1,300.50"
  {
    assert LeadingSpaces("1,300.50 ") == 0;
    assert TrailingSpaces("1,300.50 ") == 1 by {
      assert "1,300.50 "[..8] == "1,300.50";
    }
  }

  lemma CommaToDot()
    ensures ReplaceChar("1,300.50", ',', '.') == "1.300.50"
  {
  }

  lemma FirstNumberDotted()
    ensures NumberEnd("1.300.50", 0) == Some(5)
  {
  }

  /** `nettoyer_plage("800 - 1 300")`: the second number, too, stops at the
      space, giving the pair ("800", "1"). */
  lemma RangeWithSpacedThousands()
    ensures CleanRange(Some("800 - 1 300")) == Some(("800", "1"))
  {
    NormaliseRange();
    FirstRange();
    CleanRangeSteps("800 - 1 300", "800 - 1 300", RangeSpans(Span(0, 3), 4, Span(6, 7)));
    RangeSlices();
  }

  lemma RangeSlices()
    ensures "800 - 1 300"[0..3] == "800" && "800 - 1 300"[6..7] == "1"
  {
  }

  lemma NormaliseRange()
    ensures Strip("800 - 1 300") != []
    ensures Normalise("800 - 1 300") == "800 - 1 300"
  {
    RangeTextClean();
    RangeTextEnds();
    StripStripped("800 - 1 300");
    NormaliseClean("800 - 1 300");
  }

  lemma RangeTextClean()
    ensures Euro !in "800 - 1 300" && ',' !in "800 - 1 300"
  {
  }

  lemma RangeTextEnds()
    ensures !IsSpace("800 - 1 300"[0]) && !IsSpace("800 - 1 300"[10])
  {
  }

  lemma FirstRange()
    ensures RangeSearch("800 - 1 300") == Some(RangeSpans(Span(0, 3), 4, Span(6, 7)))
  {
    var s := "800 - 1 300";
    RangeNumbers();
    RangeSpaces();
    DashAndSecondForced(s, 3, 4, 6, 7);
    RangeAtSteps(s, 0, 3, 4, Span(6, 7));
    RangeSearchAtStart(s);
  }

  lemma RangeNumbers()
    ensures NumberEnd("800 - 1 300", 0) == Some(3)
    ensures NumberEnd("800 - 1 300", 6) == Some(7)
  {
  }

  lemma RangeSpaces()
    ensures SpaceRun("800 - 1 300", 3) == 1 && SpaceRun("800 - 1 300", 5) == 1
    ensures "800 - 1 300"[4] == '-'
  {
  }

  /** The general steps the worked inputs go through. */
  lemma NormaliseSteps(raw: string, noEuro: string, stripped: string, n: string)
    requires RemoveChar(raw, Euro) == noEuro && Strip(noEuro) == stripped
    requires ReplaceChar(stripped, ',', '.') == n
    ensures Normalise(raw) == n
  {
  }

  lemma SearchAtStart(s: string, e: nat)
    requires 0 < |s| && NumberEnd(s, 0) == Some(e)
    ensures Search(s) == Some(Span(0, e))
  {
  }

  lemma CleanValueSteps(raw: string, n: string, sp: Span)
    requires Normalise(raw) == n && Search(n) == Some(sp)
    ensures CleanValue(Some(raw)) == Some(n[sp.start..sp.end])
  {
  }

  lemma RangeAtSteps(s: string, i: nat, e1: nat, d: nat, high: Span)
    requires i <= e1 <= |s| && NumberEnd(s, i) == Some(e1)
    requires DashAndSecond(s, e1) == Some((d, high))
    ensures RangeAt(s, i) == Some(RangeSpans(Span(i, e1), d, high))
  {
  }

  lemma RangeSearchAtStart(s: string)
    requires 0 < |s| && RangeAt(s, 0).Some?
    ensures RangeSearch(s) == RangeAt(s, 0)
  {
  }

  lemma CleanRangeSteps(raw: string, n: string, m: RangeSpans)
    requires Strip(raw) != [] && Normalise(raw) == n && RangeSearch(n) == Some(m)
    ensures CleanRange(Some(raw)) == Some((n[m.low.start..m.low.end], n[m.high.start..m.high.end]))
  {
  }
}
