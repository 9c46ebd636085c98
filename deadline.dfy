/**
 * The deadline badge of each work (`getStatusPrazo` in src/App.tsx) and the
 * countdown line of the paged board (src/App4.tsx). The day count is an input:
 * turning dates and the clock into days is not part of this model.
 */
module Deadline {
  import opened Wrappers
  import opened Text

  /** The badge colour, one Tailwind background class each. */
  datatype Colour = Green | Red | Yellow | Blue

  datatype Icon = CheckCircle | AlertTriangle | Calendar

  datatype Status = Status(text: string, colour: Colour, icon: Icon)

  const CompletedText := "Concluída"
  const LatePrefix := "Atrasado "
  const LateSuffix := " dias"
  const RemainingSuffix := " dias restantes"
  const ExpiredText := "Prazo expirado"

  /** Days a badge is still to run before it turns from yellow to blue. */
  const DueSoonDays := 30

  /** The Tailwind class the badge is drawn with: a shade-500 background. */
  function ColourClass(c: Colour): (cls: string)
    ensures |cls| > 7 && cls[..3] == "bg-" && cls[|cls| - 4..] == "-500"
  {
    match c
    case Green => "bg-green-500"
    case Red => "bg-red-500"
    case Yellow => "bg-yellow-500"
    case Blue => "bg-blue-500"
  }

  /** The four badge cases are drawn in four different classes. */
  lemma ColourClassInjective(a: Colour, b: Colour)
    requires a != b
    ensures ColourClass(a) != ColourClass(b)
  {
    // the four class names differ in length
  }

  /**
   * The badge for a work with `days` left to its deadline and `progress` done
   * (1 meaning complete). Exactly one of four cases applies, decided first by
   * completion and then by the day count.
   */
  function StatusOf(days: int, progress: real): (s: Status)
    ensures s.colour == Green <==> progress == 1.0
    ensures s.colour == Red <==> progress != 1.0 && days < 0
    ensures s.colour == Yellow <==> progress != 1.0 && 0 <= days <= DueSoonDays
    ensures s.colour == Blue <==> progress != 1.0 && DueSoonDays < days
    ensures s.icon == CheckCircle <==> s.colour == Green
    ensures s.icon == Calendar <==> s.colour == Blue
    ensures s.colour == Green ==> s.text == CompletedText
    ensures s.colour == Red ==> s.text == LatePrefix + NatToDecimal(-days) + LateSuffix
    ensures s.colour in {Yellow, Blue} ==> s.text == NatToDecimal(days) + RemainingSuffix
  {
    if progress == 1.0 then
      Status(CompletedText, Green, CheckCircle)
    else if days < 0 then
      Status(LatePrefix + NatToDecimal(-days) + LateSuffix, Red, AlertTriangle)
    else if days <= DueSoonDays then
      Status(NatToDecimal(days) + RemainingSuffix, Yellow, AlertTriangle)
    else
      Status(NatToDecimal(days) + RemainingSuffix, Blue, Calendar)
  }

  /**
   * Reads the day count back from the text of a badge or countdown line:
   * "N dias restantes" shows N, "Atrasado N dias" shows -N, anything else
   * shows no count.
   */
  function DaysShown(text: string): Option<int> {
    var n := |text|;
    if n > |RemainingSuffix| && text[n - |RemainingSuffix|..] == RemainingSuffix
       && AllDigits(text[..n - |RemainingSuffix|])
    then
      Some(DecimalValue(text[..n - |RemainingSuffix|]))
    else if n > |LatePrefix| + |LateSuffix| && text[..|LatePrefix|] == LatePrefix
            && text[n - |LateSuffix|..] == LateSuffix
            && AllDigits(text[|LatePrefix|..n - |LateSuffix|])
    then
      var late: int := DecimalValue(text[|LatePrefix|..n - |LateSuffix|]);
      Some(-late)
    else
      None
  }

  lemma RemainingTextShows(d: nat)
    ensures DaysShown(NatToDecimal(d) + RemainingSuffix) == Some(d)
  {
    var t := NatToDecimal(d) + RemainingSuffix;
    assert t[|t| - |RemainingSuffix|..] == RemainingSuffix;
    assert t[..|t| - |RemainingSuffix|] == NatToDecimal(d);
    DecimalRoundTrip(d);
  }

  lemma LateTextShows(d: nat)
    requires d > 0
    ensures DaysShown(LatePrefix + NatToDecimal(d) + LateSuffix) == Some(-(d as int))
  {
    var t := LatePrefix + NatToDecimal(d) + LateSuffix;
    assert !IsDigit(t[0]);
    if |t| > |RemainingSuffix| {
      assert t[..|t| - |RemainingSuffix|][0] == t[0];
    }
    assert t[..|LatePrefix|] == LatePrefix;
    assert t[|t| - |LateSuffix|..] == LateSuffix;
    assert t[|LatePrefix|..|t| - |LateSuffix|] == NatToDecimal(d);
    DecimalRoundTrip(d);
  }

  /**
   * Every badge of an unfinished work shows its day count, so two unfinished
   * works with the same badge text are the same number of days from their
   * deadlines; the completed badge shows no count.
   */
  lemma StatusShowsDays(days: int, progress: real)
    ensures progress != 1.0 ==> DaysShown(StatusOf(days, progress).text) == Some(days)
    ensures progress == 1.0 ==> DaysShown(StatusOf(days, progress).text) == None
  {
    if progress != 1.0 {
      if days < 0 {
        LateTextShows(-days);
      } else {
        RemainingTextShows(days);
      }
    }
  }

  /**
   * The countdown line of the paged board for the current work. `None` stands
   * for a day count that is not a number (no current work, or no valid
   * deadline), which the comparison with zero treats as not positive.
   */
  function CountdownMessage(days: Option<int>): (m: string)
    ensures m == ExpiredText <==> !(days.Some? && days.value > 0)
    ensures days.Some? && days.value > 0 ==> DaysShown(m) == Some(days.value)
  {
    if days.Some? && days.value > 0 then
      RemainingTextShows(days.value);
      NatToDecimal(days.value) + RemainingSuffix
    else
      ExpiredText
  }

  /**
   * The two screens agree on an unfinished work with days still to run, but on
   * the deadline day itself the badge reads "0 dias restantes" while the
   * countdown already reads "Prazo expirado".
   */
  lemma CountdownVersusStatus(days: int, progress: real)
    requires progress != 1.0 && days >= 0
    ensures days > 0 ==> CountdownMessage(Some(days)) == StatusOf(days, progress).text
    ensures days == 0 ==> CountdownMessage(Some(days)) != StatusOf(days, progress).text
  {
    if days == 0 {
      assert |StatusOf(days, progress).text| > |ExpiredText|;
    }
  }
}
