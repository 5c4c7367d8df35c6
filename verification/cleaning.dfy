/**
 * `nettoyer_valeur` and `nettoyer_plage`, the cleaner's two string-to-number
 * functions, stopped at the matched text: where Python hands the match to
 * `float()`, the model returns the matched characters themselves.
 */
module Cleaning {
  import opened Wrappers
  import opened Text
  import opened NumberScan

  const Euro: char := '\U{20AC}'

  /** The normalisation both cleaners apply before matching: every `€`
      removed, surrounding white space stripped, then each `,` of what is
      left made a `.` in place, every other character kept. */
  function Normalise(x: string): (r: string)
    ensures Euro !in r && ',' !in r
    ensures r == [] || (!IsSpace(r[0]) && !IsSpace(r[|r| - 1]))
    ensures forall c :: IsDigit(c) ==> (c in r <==> c in x)
  {
    var noEuro := RemoveChar(x, Euro);
    var stripped := Strip(noEuro);
    var r := ReplaceChar(stripped, ',', '.');
    NormaliseKeepsDigits(x, noEuro, stripped, r);
    r
  }

  /** The last step of `Normalise` works in place on the stripped text: each
      `,` becomes a `.` and every other character stays where it was. */
  lemma NormaliseCommas(x: string)
    ensures |Normalise(x)| == |Strip(RemoveChar(x, Euro))|
    ensures forall i :: 0 <= i < |Normalise(x)| ==>
              (Strip(RemoveChar(x, Euro))[i] == ',' ==> Normalise(x)[i] == '.')
              && (Strip(RemoveChar(x, Euro))[i] != ',' ==> Normalise(x)[i] == Strip(RemoveChar(x, Euro))[i])
  {
    var stripped := Strip(RemoveChar(x, Euro));
    assert Normalise(x) == ReplaceChar(stripped, ',', '.');
  }

  /** Text with no `€`, no `,` and no white space at either end is already
      normal. */
  lemma NormaliseClean(s: string)
    requires Euro !in s && ',' !in s
    requires s == [] || (!IsSpace(s[0]) && !IsSpace(s[|s| - 1]))
    ensures Normalise(s) == s
  {
    RemoveCharAbsent(s, Euro);
    StripStripped(s);
    ReplaceCharAbsent(s, ',', '.');
  }

  lemma NormaliseKeepsDigits(x: string, noEuro: string, stripped: string, r: string)
    requires noEuro == RemoveChar(x, Euro) && stripped == Strip(noEuro) && r == ReplaceChar(stripped, ',', '.')
    ensures forall c :: IsDigit(c) ==> (c in r <==> c in x)
  {
    forall c | IsDigit(c)
      ensures c in r <==> c in x
    {
      StripKeeps(noEuro, c);
      ReplaceCharKeeps(stripped, ',', '.', c);
    }
  }

  /** `nettoyer_valeur(x)`: nothing for a missing value; otherwise the
      leftmost, longest number in the normalised text, which exists exactly
      when the text holds an ASCII digit. */
  function CleanValue(x: Option<string>): (r: Option<string>)
    ensures x.None? ==> r.None?
    ensures x.Some? ==> (r.Some? <==> exists k :: 0 <= k < |x.value| && IsDigit(x.value[k]))
    ensures r.Some? ==> IsNumber(r.value)
    ensures r.Some? ==> exists sp :: IsLeftmostLongestNumber(Normalise(x.value), sp)
                                     && r.value == Normalise(x.value)[sp.start..sp.end]
  {
    match x
    case None => None
    case Some(raw) =>
      var n := Normalise(raw);
      SearchFindsIffDigit(n);
      DigitIn(raw);
      DigitIn(n);
      match Search(n)
      case None => None
      case Some(sp) => Some(n[sp.start..sp.end])
  }

  /** A digit occurs at some index exactly when some digit is a member. */
  lemma DigitIn(s: string)
    ensures (exists k :: 0 <= k < |s| && IsDigit(s[k])) <==> (exists c :: IsDigit(c) && c in s)
  {
    if c :| IsDigit(c) && c in s {
      var k :| 0 <= k < |s| && s[k] == c;
      assert IsDigit(s[k]);
    }
  }

  /** `nettoyer_plage(x)`: nothing for a missing or blank value; otherwise
      the two numbers of the leftmost `number \s* - \s* number` in the
      normalised text, if there is one. */
  function CleanRange(x: Option<string>): (r: Option<(string, string)>)
    ensures x.None? ==> r.None?
    ensures x.Some? && Strip(x.value) == [] ==> r.None?
    ensures x.Some? && Strip(x.value) != [] ==>
              (r.Some? <==> exists m :: IsRangeAt(Normalise(x.value), m))
    ensures r.Some? ==> IsNumber(r.value.0) && IsNumber(r.value.1)
    ensures r.Some? ==> exists m :: && IsLeftmostRange(Normalise(x.value), m)
                                   && r.value.0 == Normalise(x.value)[m.low.start..m.low.end]
                                   && r.value.1 == Normalise(x.value)[m.high.start..m.high.end]
  {
    match x
    case None => None
    case Some(raw) =>
      if Strip(raw) == [] then None
      else
        var n := Normalise(raw);
        match RangeSearch(n)
        case None => None
        case Some(m) => Some((n[m.low.start..m.low.end], n[m.high.start..m.high.end]))
  }
}
