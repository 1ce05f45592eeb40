/** `print_results`: the text the analysis writes to standard output, as a
    sequence of lines. Turning a statistic into its two-decimal text is
    outside this model, so each value arrives already formatted. */
module Report {
  import opened Strings

  const BannerWidth: nat := 60
  const ValueWidth: nat := 13
  const LabelWidth: nat := 20

  const Title: string := "                Price Difference Analysis                "
  const AverageLabel: string := "Average:            "
  const MedianLabel: string := "Median:             "
  const AbsAverageLabel: string := "Average Absolute:   "
  const AbsMedianLabel: string := "Median Absolute:    "

  /** Python's format spec `>width` on a text: spaces in front up to width
      characters; a longer text is not cut. */
  function RightJustify(s: string, width: nat): (r: string)
    ensures |r| == if |s| < width then width else |s|
    ensures r[|r| - |s|..] == s
    ensures forall i :: 0 <= i < |r| - |s| ==> r[i] == ' '
  {
    if |s| >= width then s else Repeat(' ', width - |s|) + s
  }

  /** One result line: the caption padded to 20 columns, a dollar sign, the
      value right-justified in 13 columns. */
  function ValueLine(caption: string, value: string): (line: string)
    ensures |line| == |caption| + 1 + if |value| < ValueWidth then ValueWidth else |value|
    ensures line[..|caption|] == caption && line[|caption|] == '$'
    ensures line[|line| - |value|..] == value
    ensures forall i :: |caption| < i < |line| - |value| ==> line[i] == ' '
  {
    var just := RightJustify(value, ValueWidth);
    var line := caption + "$" + just;
    assert line[|caption| + 1..] == just;
    line
  }

  /** The lines `print_results` writes: an empty line (the leading "\n"),
      a banner, the title, a banner, the four values, a banner. */
  function ReportLines(average: string, median: string, absAverage: string, absMedian: string): (lines: seq<string>)
    ensures |lines| == 9 && lines[0] == []
    ensures lines[1] == lines[3] == lines[8] == Repeat('=', BannerWidth)
    ensures lines[2] == Title
    ensures lines[4] == ValueLine(AverageLabel, average)
    ensures lines[5] == ValueLine(MedianLabel, median)
    ensures lines[6] == ValueLine(AbsAverageLabel, absAverage)
    ensures lines[7] == ValueLine(AbsMedianLabel, absMedian)
  {
    var banner := Repeat('=', BannerWidth);
    [[], banner, Title, banner,
     ValueLine(AverageLabel, average),
     ValueLine(MedianLabel, median),
     ValueLine(AbsAverageLabel, absAverage),
     ValueLine(AbsMedianLabel, absMedian),
     banner]
  }

  /** Each value line is 34 characters wide for a value of at most 13
      characters, its dollar sign always in column 21 and the value flush
      right, whatever its sign. */
  lemma ValueLineLayout(caption: string, value: string)
    requires |caption| == LabelWidth && |value| <= ValueWidth
    ensures |ValueLine(caption, value)| == LabelWidth + 1 + ValueWidth
    ensures ValueLine(caption, value)[..LabelWidth] == caption
    ensures ValueLine(caption, value)[LabelWidth] == '$'
    ensures ValueLine(caption, value)[LabelWidth + 1 + ValueWidth - |value|..] == value
    ensures forall i :: LabelWidth < i < LabelWidth + 1 + ValueWidth - |value| ==> ValueLine(caption, value)[i] == ' '
  {
    var line := ValueLine(caption, value);
    var just := RightJustify(value, ValueWidth);
    assert line == caption + ("$" + just);
    assert line[LabelWidth + 1..] == just;
    forall i | LabelWidth < i < LabelWidth + 1 + ValueWidth - |value|
      ensures line[i] == ' '
    {
      assert line[i] == just[i - LabelWidth - 1];
    }
  }

  /** The lines the script's tests look for in the printed text, for the
      values "100.50", "-50.25", "75.75" and "60.00", one lemma per line. */
  lemma AverageLineExample(lines: seq<string>)
    requires lines == ReportLines("100.50", "-50.25", "75.75", "60.00")
    ensures lines[4] == "Average:            $       100.50"
  {
    SixCharacterLine(AverageLabel, "100.50");
  }

  lemma MedianLineExample(lines: seq<string>)
    requires lines == ReportLines("100.50", "-50.25", "75.75", "60.00")
    ensures lines[5] == "Median:             $       -50.25"
  {
    SixCharacterLine(MedianLabel, "-50.25");
  }

  lemma AbsAverageLineExample(lines: seq<string>)
    requires lines == ReportLines("100.50", "-50.25", "75.75", "60.00")
    ensures lines[6] == "Average Absolute:   $        75.75"
  {
    FiveCharacterLine(AbsAverageLabel, "75.75");
  }

  lemma AbsMedianLineExample(lines: seq<string>)
    requires lines == ReportLines("100.50", "-50.25", "75.75", "60.00")
    ensures lines[7] == "Median Absolute:    $        60.00"
  {
    FiveCharacterLine(AbsMedianLabel, "60.00");
  }

  /** A six-character value is preceded by seven spaces. */
  lemma SixCharacterLine(caption: string, value: string)
    requires |value| == 6
    ensures ValueLine(caption, value) == caption + "$       " + value
  {
    assert Repeat(' ', 7) == "       ";
  }

  /** A five-character value is preceded by eight spaces. */
  lemma FiveCharacterLine(caption: string, value: string)
    requires |value| == 5
    ensures ValueLine(caption, value) == caption + "$        " + value
  {
    assert Repeat(' ', 8) == "        ";
  }
}
