/** The console analysis reporter of
    neon_compiler/analysis/impl/console_analysis_reporter.cpp: one text line per
    analysis entry, appended to an output stream. The stream is modelled as the
    sequence of characters written to it. */
module ConsoleReporting {
  import opened Util
  import opened Reading

  /** The severities the reporter names; `UnlistedSeverity` stands for any other
      value of the enumeration, which the `default` branch answers. */
  datatype AnalysisSeverity = Error | Warning | Info | UnlistedSeverity

  /** The entry types the reporter names, as its switch lists them;
      `UnlistedEntryType` stands for any other value. */
  datatype AnalysisEntryType =
    | Keyword | Separator | Operator | LiteralNumber | LiteralChar | LiteralString
    | Declaration | Reference | Package | UnlistedEntryType

  /** An analysis entry as `report` reads it. */
  datatype AnalysisEntry = AnalysisEntry(
    severity: AnalysisSeverity, entryType: AnalysisEntryType,
    sourcePosition: SourcePosition, length: nat, info: Option<string>)

  /** `analysis_severity_to_string`: a non-empty word of capital letters. */
  function SeverityName(severity: AnalysisSeverity): (s: string)
    ensures s != [] && forall c :: c in s ==> 'A' <= c <= 'Z' || c == '_'
  {
    match severity
    case Error => "ERROR"
    case Warning => "WARNING"
    case Info => "INFO"
    case UnlistedSeverity => "UNKNOWN"
  }

  /** `analysis_entry_type_to_string`: a non-empty word of capital letters and
      '_'. */
  function EntryTypeName(entryType: AnalysisEntryType): (s: string)
    ensures s != [] && forall c :: c in s ==> 'A' <= c <= 'Z' || c == '_'
  {
    match entryType
    case Keyword => "KEYWORD"
    case Separator => "SEPARATOR"
    case Operator => "OPERATOR"
    case LiteralNumber => "LITERAL_NUMBER"
    case LiteralChar => "LITERAL_CHAR"
    case LiteralString => "LITERAL_STRING"
    case Declaration => "DECLARATION"
    case Reference => "REFERENCE"
    case Package => "PACKAGE"
    case UnlistedEntryType => "UNKNOWN"
  }

  /** The three listed severities have three different names, none of them the
      name of an unlisted one. */
  lemma SeverityNamesDistinct(a: AnalysisSeverity, b: AnalysisSeverity)
    ensures a != b && !a.UnlistedSeverity? && !b.UnlistedSeverity? ==> SeverityName(a) != SeverityName(b)
    ensures !a.UnlistedSeverity? ==> SeverityName(a) != "UNKNOWN"
  {
  }

  /** The nine listed entry types have nine different names, none of them the
      "UNKNOWN" of every other value. */
  lemma EntryTypeNamesDistinct(a: AnalysisEntryType, b: AnalysisEntryType)
    ensures a != b && !a.UnlistedEntryType? && !b.UnlistedEntryType? ==> EntryTypeName(a) != EntryTypeName(b)
    ensures EntryTypeName(a) == "UNKNOWN" <==> a.UnlistedEntryType?
  {
  }

  /** `std::to_string` of an unsigned number: decimal digits without a
      leading zero, which read back as the number. */
  function DecimalString(n: nat): (s: string)
    ensures s != [] && (|s| > 1 ==> s[0] != '0')
    ensures forall i :: 0 <= i < |s| ==> '0' <= s[i] <= '9'
    ensures DecimalValue(s) == n
  {
    if n < 10 then [DigitChar(n)]
    else
      var p := DecimalString(n / 10);
      assert (p + [DigitChar(n % 10)])[..|p|] == p;
      p + [DigitChar(n % 10)]
  }

  function DigitChar(d: nat): (c: char)
    requires d < 10
    ensures '0' <= c <= '9' && DigitValue(c) == d
  {
    (48 + d) as char
  }

  /** The value of a decimal digit. */
  function DigitValue(c: char): nat
    requires '0' <= c <= '9'
  {
    c as nat - 48
  }

  /** The number a string of decimal digits denotes, most significant first. */
  function DecimalValue(s: string): nat
    requires forall i :: 0 <= i < |s| ==> '0' <= s[i] <= '9'
  {
    if s == [] then 0 else 10 * DecimalValue(s[..|s| - 1]) + DigitValue(s[|s| - 1])
  }

  /** What `escape` builds: each newline becomes two blanks, every other
      character is copied. */
  function Escaped(s: string): (r: string)
    ensures '\n' !in r
  {
    if s == [] then []
    else Escaped(s[..|s| - 1]) + (if s[|s| - 1] == '\n' then "  " else [s[|s| - 1]])
  }

  /** The number of newlines in `s`. */
  function NewlineCount(s: string): nat
  {
    if s == [] then 0 else NewlineCount(s[..|s| - 1]) + (if s[|s| - 1] == '\n' then 1 else 0)
  }

  /** Escaped text grows by one character per newline, and is the text itself
      when the text has none. */
  lemma {:induction false} EscapedProperties(s: string)
    ensures |Escaped(s)| == |s| + NewlineCount(s)
    ensures '\n' !in s ==> Escaped(s) == s
    decreases |s|
  {
    if s != [] {
      var init := s[..|s| - 1];
      EscapedProperties(init);
      assert '\n' !in s ==> '\n' !in init by {
        if '\n' in init {
          var j :| 0 <= j < |init| && init[j] == '\n';
          assert s[j] == '\n';
        }
      }
      assert '\n' !in s ==> init + [s[|s| - 1]] == s;
    }
  }

  /** Escaping text made of two pieces escapes each piece: the replacement
      works character by character. */
  lemma {:induction false} EscapedAppend(s: string, t: string)
    ensures Escaped(s + t) == Escaped(s) + Escaped(t)
    decreases |t|
  {
    if t == [] {
      assert s + t == s;
    } else {
      var init := t[..|t| - 1];
      EscapedAppend(s, init);
      assert (s + t)[..|s + t| - 1] == s + init;
    }
  }

  /** What `report` writes between the "[A] " prefix and the closing newline:
      the severity and the entry type, then tab-separated the offset in the
      file, the newline count, the offset in the line and the length, then the
      escaped info, if any. None of it is a newline. */
  function ReportFields(entry: AnalysisEntry): (r: string)
    ensures '\n' !in r
  {
    SeverityName(entry.severity) + " " + EntryTypeName(entry.entryType)
    + "\t" + DecimalString(entry.sourcePosition.offsetInFile)
    + "\t" + DecimalString(entry.sourcePosition.newlinesCount)
    + "\t" + DecimalString(entry.sourcePosition.offsetInLine)
    + "\t" + DecimalString(entry.length)
    + "\t" + (if entry.info.Some? then Escaped(entry.info.value) else "")
  }

  /** The line `report` writes for `entry`. It starts with "[A] " and its only
      newline is its last character, whatever the info text holds. */
  function ReportLine(entry: AnalysisEntry): (line: string)
    ensures |line| > 4 && line[..4] == "[A] "
    ensures line[|line| - 1] == '\n' && '\n' !in line[..|line| - 1]
  {
    var text := "[A] " + ReportFields(entry);
    assert (text + "\n")[..|text|] == text && text[..4] == "[A] ";
    text + "\n"
  }

  /** The header line the constructor writes. */
  const Header: string := "[AH]\t\t\tI\tY\tX\tL\n"

  class ConsoleAnalysisReporter {
    /** the file the entries are about (not written by `report`) */
    const file: string
    /** everything written to the output stream so far */
    var out: string

    /** Writes the header line to the stream `out0` has been written with. */
    constructor (file: string, out0: string)
      ensures this.file == file && out == out0 + Header
    {
      this.file := file;
      out := out0 + Header;
    }

    /** `report`: appends the line `ReportLine` describes. */
    method Report(entry: AnalysisEntry)
      modifies this
      ensures out == old(out) + ReportLine(entry)
    {
      var fields := SeverityName(entry.severity) + " " + EntryTypeName(entry.entryType)
        + "\t" + DecimalString(entry.sourcePosition.offsetInFile)
        + "\t" + DecimalString(entry.sourcePosition.newlinesCount)
        + "\t" + DecimalString(entry.sourcePosition.offsetInLine)
        + "\t" + DecimalString(entry.length)
        + "\t";
      if entry.info.Some? {
        var escaped := Escape(entry.info.value);
        fields := fields + escaped;
      } else {
        assert fields + "" == fields;
      }
      out := out + ("[A] " + fields + "\n");
    }

    /** `escape`: copies `str`, writing two blanks for each newline. */
    method Escape(str: string) returns (o: string)
      ensures o == Escaped(str)
    {
      o := "";
      for i := 0 to |str|
        invariant o == Escaped(str[..i])
      {
        assert str[..i + 1][..i] == str[..i];
        if str[i] == '\n' {
          o := o + "  ";
        } else {
          o := o + [str[i]];
        }
      }
      assert str[..|str|] == str;
    }
  }
}
