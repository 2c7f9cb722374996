/**
 * The template text of the checker: `str.format(license=..., year=...)` on a copyright
 * template, `format_license_file`, which removes a three-character indent from every line,
 * and `generate_license_text`.
 */
module Template {
  import opened Outcomes
  import opened Text

  /** `str(n)`. */
  function Decimal(n: nat): (r: string)
    ensures r != []
    ensures forall k :: 0 <= k < |r| ==> '0' <= r[k] <= '9'
  {
    if n < 10 then [('0' as int + n) as char] else Decimal(n / 10) + [('0' as int + n % 10) as char]
  }

  /** The index of the first '}' in `s` at or after `from`, or `|s|`. */
  function NextCloseBrace(s: string, from: nat): (k: nat)
    requires from <= |s|
    ensures from <= k <= |s|
    ensures k < |s| ==> s[k] == '}'
    ensures forall j :: from <= j < k ==> s[j] != '}'
    decreases |s| - from
  {
    if from == |s| || s[from] == '}' then from else NextCloseBrace(s, from + 1)
  }

  /** The text a replacement field stands for; only `{license}` and `{year}` are given. */
  function FieldValue(field: string, license: string, year: nat): Result<string> {
    if field == "license" then Ok(license)
    else if field == "year" then Ok(Decimal(year))
    else Err(UnknownField(field))
  }

  function Prepend(prefix: string, r: Result<string>): Result<string> {
    match r
    case Ok(s) => Ok(prefix + s)
    case Err(e) => Err(e)
  }

  /** `template.format(license=license, year=year)`. */
  function Format(template: string, license: string, year: nat): Result<string>
    decreases |template|
  {
    if template == [] then Ok([])
    else if template[0] == '{' then
      if |template| > 1 && template[1] == '{' then Prepend("{", Format(template[2..], license, year))
      else
        var close := NextCloseBrace(template, 1);
        if close == |template| then Err(UnclosedField)
        else
          match FieldValue(template[1..close], license, year)
          case Err(e) => Err(e)
          case Ok(v) => Prepend(v, Format(template[close + 1..], license, year))
    else if template[0] == '}' then
      if |template| > 1 && template[1] == '}' then Prepend("}", Format(template[2..], license, year))
      else Err(SingleClose)
    else Prepend([template[0]], Format(template[1..], license, year))
  }

  /** A template described by its parts: literal text and the two placeholders. */
  datatype Piece = Verbatim(text: string) | LicenseSlot | YearSlot

  /** Literal text written in a template: braces are doubled. */
  function Escape(text: string): string {
    if text == [] then []
    else if text[0] == '{' then "{{" + Escape(text[1..])
    else if text[0] == '}' then "}}" + Escape(text[1..])
    else [text[0]] + Escape(text[1..])
  }

  /** The template text of one part. */
  function PieceTemplate(piece: Piece): string {
    match piece
    case Verbatim(t) => Escape(t)
    case LicenseSlot => "{license}"
    case YearSlot => "{year}"
  }

  /** What one part reads as once the placeholders are filled in. */
  function PieceValue(piece: Piece, license: string, year: nat): string {
    match piece
    case Verbatim(t) => t
    case LicenseSlot => license
    case YearSlot => Decimal(year)
  }

  /** The template text for a list of parts. */
  function Compose(pieces: seq<Piece>): string {
    if pieces == [] then [] else PieceTemplate(pieces[0]) + Compose(pieces[1..])
  }

  /** What a list of parts reads as once the placeholders are filled in. */
  function Render(pieces: seq<Piece>, license: string, year: nat): string {
    if pieces == [] then [] else PieceValue(pieces[0], license, year) + Render(pieces[1..], license, year)
  }

  lemma PrependTwice(a: string, b: string, r: Result<string>)
    ensures Prepend(a, Prepend(b, r)) == Prepend(a + b, r)
  {
    if r.Ok? {
      assert a + (b + r.value) == a + b + r.value;
    }
  }

  /** The template text of one literal character formats back to that character. */
  lemma FormatEscapedChar(text: string, rest: string, license: string, year: nat)
    requires text != []
    ensures Format(Escape(text) + rest, license, year)
         == Prepend([text[0]], Format(Escape(text[1..]) + rest, license, year))
  {
    var t := Escape(text) + rest;
    var tail := Escape(text[1..]) + rest;
    if text[0] == '{' || text[0] == '}' {
      assert t == [text[0], text[0]] + tail;
      assert t[2..] == tail;
    } else {
      assert t == [text[0]] + tail;
      assert t[1..] == tail;
    }
  }

  /** Escaped literal text formats back to exactly that text, whatever follows it. */
  lemma {:induction false} FormatEscape(text: string, rest: string, license: string, year: nat)
    ensures Format(Escape(text) + rest, license, year) == Prepend(text, Format(rest, license, year))
    decreases |text|
  {
    if text != [] {
      FormatEscape(text[1..], rest, license, year);
      FormatEscapedChar(text, rest, license, year);
      PrependTwice([text[0]], text[1..], Format(rest, license, year));
      assert [text[0]] + text[1..] == text;
    } else {
      assert Escape(text) + rest == rest;
      var r := Format(rest, license, year);
      if r.Ok? {
        assert text + r.value == r.value;
      }
    }
  }

  lemma FormatField(name: string, rest: string, license: string, year: nat)
    requires name == "license" || name == "year"
    ensures Format("{" + name + "}" + rest, license, year)
         == Prepend(if name == "license" then license else Decimal(year), Format(rest, license, year))
  {
    var t := "{" + name + "}" + rest;
    assert t[1] == name[0] && t[1] != '{';
    assert forall j :: 1 <= j < |name| + 1 ==> t[j] == name[j - 1];
    assert t[|name| + 1] == '}';
    assert NextCloseBrace(t, 1) == |name| + 1;
    assert t[1..|name| + 1] == name;
    assert t[|name| + 2..] == rest;
  }

  /** One part of a template formats to its value, whatever follows it. */
  lemma FormatPiece(piece: Piece, rest: string, license: string, year: nat)
    ensures Format(PieceTemplate(piece) + rest, license, year)
         == Prepend(PieceValue(piece, license, year), Format(rest, license, year))
  {
    match piece
    case Verbatim(t) => FormatEscape(t, rest, license, year);
    case LicenseSlot =>
      assert PieceTemplate(piece) == "{" + "license" + "}";
      FormatField("license", rest, license, year);
    case YearSlot =>
      assert PieceTemplate(piece) == "{" + "year" + "}";
      FormatField("year", rest, license, year);
  }

  /** Formatting a composed template fills in exactly its placeholders. */
  lemma {:induction false} FormatCompose(pieces: seq<Piece>, license: string, year: nat)
    ensures Format(Compose(pieces), license, year) == Ok(Render(pieces, license, year))
  {
    if pieces != [] {
      FormatCompose(pieces[1..], license, year);
      FormatPiece(pieces[0], Compose(pieces[1..]), license, year);
    }
  }

  /** A template without braces formats to itself. */
  lemma {:induction false} FormatPlain(template: string, license: string, year: nat)
    requires forall k :: 0 <= k < |template| ==> template[k] != '{' && template[k] != '}'
    ensures Format(template, license, year) == Ok(template)
    decreases |template|
  {
    if template != [] {
      FormatPlain(template[1..], license, year);
      assert template == [template[0]] + template[1..];
    }
  }

  /** A line of `format_license_file`: the first three characters removed, shorter lines emptied. */
  function DedentLine(line: string): string {
    if |line| > 3 then line[3..] else []
  }

  function DedentAll(lines: seq<string>): (out: seq<string>)
    ensures |out| == |lines|
    ensures forall i :: 0 <= i < |lines| ==> out[i] == DedentLine(lines[i])
  {
    if lines == [] then [] else [DedentLine(lines[0])] + DedentAll(lines[1..])
  }

  /** `format_license_file(s)`. */
  function FormatLicenseFile(s: string): string {
    JoinLines(DedentAll(SplitLines(s)))
  }

  /**
   * `format_license_file` gives one '\n'-separated line per line of its input, each the input
   * line without its first three characters, with no trailing newline.
   */
  lemma FormatLicenseFileLines(s: string)
    ensures s == [] ==> FormatLicenseFile(s) == []
    ensures s != [] ==>
      var lines := SplitLines(s);
      var out := Split(FormatLicenseFile(s));
      |out| == |lines| && forall i :: 0 <= i < |lines| ==> out[i] == DedentLine(lines[i])
  {
    var lines := SplitLines(s);
    var d := DedentAll(lines);
    SplitLinesNoBreaks(s);
    forall i | 0 <= i < |d| ensures NoNewline(d[i]) {
      assert NoBreaks(lines[i]);
    }
    if s != [] {
      SplitJoin(d);
    }
  }

  /** Indent every line by three spaces: the layout the templates store the LICENSE text in. */
  function IndentAll(lines: seq<string>): (out: seq<string>)
    ensures |out| == |lines|
    ensures forall i :: 0 <= i < |lines| ==> out[i] == "   " + lines[i]
  {
    if lines == [] then [] else ["   " + lines[0]] + IndentAll(lines[1..])
  }

  lemma {:induction false} DedentIndent(lines: seq<string>)
    ensures DedentAll(IndentAll(lines)) == lines
  {
    if lines != [] {
      DedentIndent(lines[1..]);
      assert ("   " + lines[0])[3..] == lines[0];
      assert IndentAll(lines) == ["   " + lines[0]] + IndentAll(lines[1..]);
    }
  }

  lemma IndentedLine(line: string)
    requires NoBreaks(line)
    ensures NoBreaks("   " + line) && "   " + line != []
  {
    var l := "   " + line;
    assert forall k :: 3 <= k < |l| ==> l[k] == line[k - 3];
  }

  /** `format_license_file` takes back a three-space indent of every line. */
  lemma FormatLicenseFileUndoesIndent(lines: seq<string>)
    requires forall i :: 0 <= i < |lines| ==> NoBreaks(lines[i])
    ensures FormatLicenseFile(JoinLines(IndentAll(lines))) == JoinLines(lines)
  {
    var ind := IndentAll(lines);
    forall i | 0 <= i < |ind| ensures NoBreaks(ind[i]) && ind[i] != [] {
      IndentedLine(lines[i]);
    }
    SplitLinesJoin(ind);
    assert SplitLines(JoinLines(ind)) == ind;
    DedentIndent(lines);
  }

  /** `generate_license_text(license, template)`: formatted, then its lines re-joined with '\n'. */
  function GenerateLicenseText(license: string, template: string, year: nat): Result<string> {
    match Format(template, license, year)
    case Err(e) => Err(e)
    case Ok(text) => Ok(JoinLines(SplitLines(text)))
  }

  /**
   * `generate_license_text` normalises line boundaries to '\n' and drops a trailing one;
   * text already in that form comes back unchanged.
   */
  lemma GenerateLicenseTextLines(license: string, template: string, year: nat)
    requires Format(template, license, year).Ok?
    ensures var text := Format(template, license, year).value;
      var r := GenerateLicenseText(license, template, year);
      r.Ok? && (text != [] ==> Split(r.value) == SplitLines(text))
      && (OnlyNewlineBreaks(text) && (text != [] ==> text[|text| - 1] != '\n') ==> r.value == text)
  {
    var text := Format(template, license, year).value;
    var lines := SplitLines(text);
    if text != [] {
      SplitLinesNoBreaks(text);
      forall i | 0 <= i < |lines| ensures NoNewline(lines[i]) {
        assert NoBreaks(lines[i]);
      }
      SplitJoin(lines);
    }
    if OnlyNewlineBreaks(text) && (text != [] ==> text[|text| - 1] != '\n') {
      JoinSplitLines(text);
    }
  }
}
