/**
 * The logic of one birthday card: whether the countdown marks the birthday as
 * today or as soon, the countdown line at the bottom of the card, and the
 * `"{day} de {month}"` rendering of the stored date.
 */
module BirthdayCard {
  import opened Text
  import opened Calendar

  /** `isToday` */
  predicate IsToday(daysUntil: int)
  {
    daysUntil == 0
  }

  /** `isSoon` */
  predicate IsSoon(daysUntil: int)
  {
    daysUntil > 0 && daysUntil <= 7
  }

  /** How the card is highlighted: today, soon, or neither. */
  datatype Urgency = Today | Soon | Later

  /** The choice the card's styling makes: `isToday ? ... : isSoon ? ... : ...`. */
  function Classify(daysUntil: int): (u: Urgency)
    ensures u == Today <==> daysUntil == 0
    ensures u == Soon <==> 1 <= daysUntil <= 7
    ensures u == Later <==> daysUntil < 0 || daysUntil > 7
  {
    if IsToday(daysUntil) then Today else if IsSoon(daysUntil) then Soon else Later
  }

  const TodayText: string := "Hoje é o dia!"
  const TomorrowText: string := "Amanhã"

  /** The countdown line: the "today" banner, "Amanhã", or `Faltam ${daysUntil} dias`. */
  function CountdownLabel(daysUntil: int): (text: string)
    ensures text == TodayText <==> daysUntil == 0
    ensures text == TomorrowText <==> daysUntil == 1
    ensures daysUntil != 0 && daysUntil != 1 ==> |text| > 12 && text[..7] == "Faltam " && text[|text| - 5..] == " dias"
  {
    if IsToday(daysUntil) then TodayText
    else if daysUntil == 1 then TomorrowText
    else
      var text := "Faltam " + IntToString(daysUntil) + " dias";
      assert text[0] == 'F' && TodayText[0] == 'H' && TomorrowText[0] == 'A';
      text
  }

  /**
   * For a countdown of two days or more, the label is `Faltam`, the number
   * of days in decimal, and `dias`, and the number reads back as the countdown.
   */
  lemma LabelSpellsDays(daysUntil: int)
    requires daysUntil >= 2
    ensures |CountdownLabel(daysUntil)| > 12
    ensures CountdownLabel(daysUntil)[..7] == "Faltam "
    ensures CountdownLabel(daysUntil)[|CountdownLabel(daysUntil)| - 5..] == " dias"
    ensures var digits := CountdownLabel(daysUntil)[7..|CountdownLabel(daysUntil)| - 5];
            AllDigits(digits) && DecimalValue(digits) == daysUntil
  {
    var digits := NatToString(daysUntil);
    var text := "Faltam " + digits + " dias";
    assert text[7..|text| - 5] == digits;
  }

  /** Different non-negative countdowns get different labels. */
  lemma LabelInjective(a: int, b: int)
    requires a >= 0 && b >= 0
    requires CountdownLabel(a) == CountdownLabel(b)
    ensures a == b
  {
    if a >= 2 && b >= 2 {
      LabelSpellsDays(a);
      LabelSpellsDays(b);
    } else if a >= 2 {
      LabelSpellsDays(a);
    } else if b >= 2 {
      LabelSpellsDays(b);
    }
  }

  /** The month names, January first. */
  const MonthNames: seq<string> := [
    "Janeiro", "Fevereiro", "Março", "Abril", "Maio", "Junho",
    "Julho", "Agosto", "Setembro", "Outubro", "Novembro", "Dezembro"
  ]

  /** `months[month - 1]` */
  function MonthName(month: int): (name: string)
    requires 1 <= month <= 12
    ensures |MonthNames| == 12 && name == MonthNames[month - 1]
    ensures month == 1 ==> name == "Janeiro"
    ensures month == 12 ==> name == "Dezembro"
  {
    MonthNames[month - 1]
  }

  /** No two months share a name. */
  lemma MonthNamesDistinct()
    ensures forall i, j :: 0 <= i < j < |MonthNames| ==> MonthNames[i] != MonthNames[j]
  {
  }

  /** The rendered day is the day field of the date without its leading zero. */
  lemma FormatDateDay(date: IsoDate)
    ensures NatToString(DayField(date)) == StripLeadingZeros(date[8..])
  {
    TwoDigitValue(date, 8);
    assert date[8..] == date[8..10];
    RenderDropsLeadingZeros(date[8..]);
  }

  /** `formatDate`: `${parseInt(day)} de ${months[parseInt(month) - 1]}` over the fields of `date.split("-")`. */
  function FormatDate(date: IsoDate): string
  {
    NatToString(DayField(date)) + " de " + MonthName(MonthField(date))
  }

  /**
   * The rendered date is the day field without its leading zero, then
   * " de ", then the name of the month field.
   */
  lemma FormatDateSpec(date: IsoDate)
    ensures FormatDate(date) == StripLeadingZeros(date[8..]) + " de " + MonthNames[TwoDigits(date, 5) - 1]
  {
    var day := NatToString(DayField(date));
    var month := MonthName(MonthField(date));
    assert month == MonthNames[TwoDigits(date, 5) - 1];
    assert FormatDate(date) == day + " de " + month;
    FormatDateDay(date);
  }

  /** The year plays no part: dates that agree from the month on render alike. */
  lemma FormatDateIgnoresYear(a: IsoDate, b: IsoDate)
    requires a[5..] == b[5..]
    ensures FormatDate(a) == FormatDate(b)
  {
    assert a[5] == b[5] && a[6] == b[6];
    assert a[8] == b[8] && a[9] == b[9];
  }

  /** "2024-01-08" renders as "8 de Janeiro": the leading zero of the day goes. */
  lemma FormatDateJanuaryExample(jan: IsoDate)
    requires jan == "2024-01-08"
    ensures FormatDate(jan) == "8 de Janeiro"
  {
    assert FormatDate(jan) == "8" + " de " + "Janeiro" by {
      assert DayField(jan) == 8 && MonthField(jan) == 1;
      assert NatToString(8) == "8";
      assert MonthName(1) == "Janeiro";
    }
    assert "8" + " de " + "Janeiro" == "8 de Janeiro";
  }

  /** "2024-02-20" renders as "20 de Fevereiro". */
  lemma FormatDateFebruaryExample(feb: IsoDate)
    requires feb == "2024-02-20"
    ensures FormatDate(feb) == "20 de Fevereiro"
  {
    assert FormatDate(feb) == "20" + " de " + "Fevereiro" by {
      assert DayField(feb) == 20 && MonthField(feb) == 2;
      assert NatToString(20) == "20" by {
        assert NatToString(2) == "2";
      }
      assert MonthName(2) == "Fevereiro";
    }
    assert "20" + " de " + "Fevereiro" == "20 de Fevereiro";
  }
}
