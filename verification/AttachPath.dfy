/** The connection string DuckDB attaches PostgreSQL with, and the two readers it has to
    survive: the SQL literal around it, then libpq's keyword/value parser. */
module AttachPath {
  import opened Prelude
  import opened Text

  datatype Setting = Setting(key: string, value: string)

  // ----- the printer -----

  /** `s.replace(c, by)` for a one-character pattern. */
  function Replace(s: string, c: char, replacement: string): string {
    if s == "" then "" else (if s[0] == c then replacement else [s[0]]) + Replace(s[1..], c, replacement)
  }

  function Quoted(value: string): string {
    "'" + Replace(Replace(value, '\\', "\\\\"), '\'', "\\'") + "'"
  }

  function Conninfo(settings: seq<Setting>): string {
    if settings == [] then ""
    else if |settings| == 1 then settings[0].key + "=" + Quoted(settings[0].value)
    else settings[0].key + "=" + Quoted(settings[0].value) + " " + Conninfo(settings[1..])
  }

  function AttachPath(settings: seq<Setting>): string {
    Replace(Conninfo(settings), '\'', "''")
  }

  /** Without quotes and backslashes. */
  predicate Tame(s: string) {
    '\'' !in s && '\\' !in s
  }

  /** What is printed: the pairs joined by a blank, each value in single quotes that the outer
      literal doubles. */
  lemma PrintedForm(a: Setting, b: Setting)
    requires Tame(a.key) && Tame(a.value) && Tame(b.key) && Tame(b.value)
    ensures AttachPath([]) == "" && AttachPath([a]) == a.key + "=''" + a.value + "''"
    ensures AttachPath([a, b]) == a.key + "=''" + a.value + "'' " + b.key + "=''" + b.value + "''"
  {
    PairForm(a);
    PairForm(b);
    NothingToReplace("", '\'', "''");
    TwoPairs(a, b);
    hide Replace, Quoted, Conninfo, Tame;
    var x, y := a.key + "=''" + a.value + "''", b.key + "=''" + b.value + "''";
    assert x + (" " + y) == a.key + "=''" + a.value + "'' " + b.key + "=''" + b.value + "''";
    NoPairs(a);
  }

  lemma NoPairs(a: Setting)
    ensures Conninfo([]) == "" && Conninfo([a]) == a.key + "=" + Quoted(a.value)
  {
  }

  lemma TwoPairs(a: Setting, b: Setting)
    ensures var x, y := a.key + "=" + Quoted(a.value), b.key + "=" + Quoted(b.value);
      AttachPath([a, b]) == Replace(x, '\'', "''") + (" " + Replace(y, '\'', "''"))
  {
    hide Replace, Quoted;
    var x, y := a.key + "=" + Quoted(a.value), b.key + "=" + Quoted(b.value);
    assert [a, b][1..] == [b] && Conninfo([b]) == y;
    assert Conninfo([a, b]) == x + " " + y == x + (" " + y);
    ReplaceJoins(x, " " + y);
    ReplaceJoins(" ", y);
    NothingToReplace(" ", '\'', "''");
  }

  /** Inside a value a backslash and a single quote each gain a backslash. */
  lemma SpecialCharacter(before: string, c: char, after: string)
    requires Tame(before) && Tame(after) && (c == '\'' || c == '\\')
    ensures Quoted(before + [c] + after) == "'" + (before + ['\\', c] + after) + "'"
  {
    TwoPassesAreOneMap(before + [c] + after);
    EscapeOne(before, c, after);
    EscapeTame(after);
  }

  lemma {:induction false} EscapeTame(s: string)
    requires Tame(s)
    ensures EscapeAll(s) == s
  {
    if s != "" {
      assert s[0] in s && Tame(s[1..]);
      EscapeTame(s[1..]);
      assert [s[0]] + s[1..] == s;
    }
  }

  lemma {:induction false} EscapeOne(before: string, c: char, after: string)
    requires Tame(before)
    ensures EscapeAll(before + [c] + after) == before + Escape(c) + EscapeAll(after)
  {
    var s := before + [c] + after;
    if before == "" {
      assert s[0] == c && s[1..] == after;
    } else {
      assert before[0] in before && Tame(before[1..]) && s[0] == before[0] && s[1..] == before[1..] + [c] + after;
      EscapeOne(before[1..], c, after);
      assert [before[0]] + (before[1..] + Escape(c) + EscapeAll(after)) == before + Escape(c) + EscapeAll(after);
    }
  }

  lemma QuotedTame(v: string)
    requires Tame(v)
    ensures Quoted(v) == "'" + v + "'"
  {
    NothingToReplace(v, '\\', "\\\\");
    NothingToReplace(v, '\'', "\\'");
  }

  lemma QuoteDoubled()
    ensures Replace("'", '\'', "''") == "''"
  {
    assert "'"[1..] == "";
  }

  lemma PairForm(s: Setting)
    requires Tame(s.key) && Tame(s.value)
    ensures Replace(s.key + "=" + Quoted(s.value), '\'', "''") == s.key + "=''" + s.value + "''"
  {
    QuotedTame(s.value);
    QuoteDoubled();
    hide Replace, Quoted;
    NothingToReplace(s.value, '\'', "''");
    assert '\'' !in s.key + "=";
    NothingToReplace(s.key + "=", '\'', "''");
    ReplaceJoins(s.key + "=", "'" + s.value + "'");
    ReplaceJoins("'" + s.value, "'");
    ReplaceJoins("'", s.value);
    assert s.key + "=" + ("''" + s.value + "''") == s.key + "=''" + s.value + "''";
  }

  lemma ReplaceJoins(a: string, b: string)
    ensures Replace(a + b, '\'', "''") == Replace(a, '\'', "''") + Replace(b, '\'', "''")
  {
    ReplaceAppend(a, b, '\'', "''");
  }

  lemma {:induction false} NothingToReplace(s: string, c: char, replacement: string)
    requires c !in s
    ensures Replace(s, c, replacement) == s
  {
    if s != "" {
      NothingToReplace(s[1..], c, replacement);
      assert [s[0]] + s[1..] == s;
    }
  }

  // ----- the SQL literal -----

  /** The body of a character string literal after its opening quote: its value and the
      text that follows the closing quote. A doubled quote stands for one. */
  function ReadLiteral(text: string): Option<(string, string)> {
    if text == "" then None
    else if text[0] != '\'' then
      var rest := ReadLiteral(text[1..]);
      if rest.None? then None else Some(([text[0]] + rest.value.0, rest.value.1))
    else if |text| > 1 && text[1] == '\'' then
      var rest := ReadLiteral(text[2..]);
      if rest.None? then None else Some(("'" + rest.value.0, rest.value.1))
    else Some(("", text[1..]))
  }

  // ----- libpq's parser -----

  datatype ParseError = MissingEquals | UnterminatedQuote

  function SkipSpaces(s: string): (r: string)
    ensures |r| <= |s|
  {
    if s != "" && IsSpace(s[0]) then SkipSpaces(s[1..]) else s
  }

  /** The keyword before `=` or a space, and what follows it. */
  function ReadKey(s: string): (r: (string, string))
    ensures |r.0| + |r.1| == |s|
  {
    if s == "" || s[0] == '=' || IsSpace(s[0]) then ("", s)
    else var rest := ReadKey(s[1..]); ([s[0]] + rest.0, rest.1)
  }

  /** A quoted value after its opening quote: a backslash takes the next character as it is. */
  function ReadQuoted(s: string): (r: Result<(string, string), ParseError>)
    ensures r.Ok? ==> |r.value.1| < |s|
  {
    if s == "" then Err(UnterminatedQuote)
    else if s[0] == '\'' then Ok(("", s[1..]))
    else if s[0] == '\\' then
      if |s| == 1 then Err(UnterminatedQuote)
      else
        var rest := ReadQuoted(s[2..]);
        if rest.Err? then rest else Ok(([s[1]] + rest.value.0, rest.value.1))
    else
      var rest := ReadQuoted(s[1..]);
      if rest.Err? then rest else Ok(([s[0]] + rest.value.0, rest.value.1))
  }

  /** An unquoted value up to the next space, with the same use of backslashes. */
  function ReadBare(s: string): (r: (string, string))
    ensures |r.1| <= |s|
  {
    if s == "" then ("", "")
    else if IsSpace(s[0]) then ("", s[1..])
    else if s[0] == '\\' then
      if |s| == 1 then ("", "") else var rest := ReadBare(s[2..]); ([s[1]] + rest.0, rest.1)
    else var rest := ReadBare(s[1..]); ([s[0]] + rest.0, rest.1)
  }

  function ReadValue(s: string): (r: Result<(string, string), ParseError>)
    ensures r.Ok? ==> |r.value.1| <= |s|
  {
    if s != "" && s[0] == '\'' then ReadQuoted(s[1..]) else Ok(ReadBare(s))
  }

  /** One `keyword = value` pair at the start of a non-blank text. */
  function ReadSetting(s: string): (r: Result<(Setting, string), ParseError>)
    ensures r.Ok? ==> |r.value.1| < |s|
  {
    var (key, afterKey) := ReadKey(s);
    var equals := SkipSpaces(afterKey);
    if equals == "" || equals[0] != '=' then Err(MissingEquals)
    else
      var value := ReadValue(SkipSpaces(equals[1..]));
      if value.Err? then Err(value.error) else Ok((Setting(key, value.value.0), value.value.1))
  }

  function ParseConninfo(s: string): Result<seq<Setting>, ParseError>
    decreases |s|
  {
    var text := SkipSpaces(s);
    if text == "" then Ok([])
    else
      var setting := ReadSetting(text);
      if setting.Err? then Err(setting.error)
      else
        var rest := ParseConninfo(setting.value.1);
        if rest.Err? then rest else Ok([setting.value.0] + rest.value)
  }

  // ----- the round trip -----

  /** A keyword as Python's keyword arguments spell it. */
  ghost predicate IsKeyword(key: string) {
    key != "" && forall i | 0 <= i < |key| :: key[i] != '=' && !IsSpace(key[i])
  }

  /** The escaped character libpq reads back as `c`. */
  function Escape(c: char): string {
    if c == '\\' then "\\\\" else if c == '\'' then "\\'" else [c]
  }

  function EscapeAll(s: string): string {
    if s == "" then "" else Escape(s[0]) + EscapeAll(s[1..])
  }

  lemma {:induction false} ReplaceAppend(a: string, b: string, c: char, replacement: string)
    ensures Replace(a + b, c, replacement) == Replace(a, c, replacement) + Replace(b, c, replacement)
  {
    if a == "" {
      assert a + b == b;
    } else {
      assert (a + b)[1..] == a[1..] + b;
      ReplaceAppend(a[1..], b, c, replacement);
    }
  }

  /** The two replacement passes act as one character map. */
  lemma {:induction false} TwoPassesAreOneMap(s: string)
    ensures Replace(Replace(s, '\\', "\\\\"), '\'', "\\'") == EscapeAll(s)
  {
    if s != "" {
      var head := if s[0] == '\\' then "\\\\" else [s[0]];
      ReplaceAppend(head, Replace(s[1..], '\\', "\\\\"), '\'', "\\'");
      TwoPassesAreOneMap(s[1..]);
      assert [s[0]][1..] == "" && "\\\\"[1..] == "\\" && "\\"[1..] == "";
    }
  }

  lemma ReadEscaped(c: char, tail: string)
    ensures ReadQuoted(Escape(c) + tail) ==
      var rest := ReadQuoted(tail); if rest.Err? then rest else Ok(([c] + rest.value.0, rest.value.1))
  {
    var text := Escape(c) + tail;
    if |Escape(c)| == 2 { assert text[2..] == tail; } else { assert text[1..] == tail; }
  }

  lemma ReadClosing(rest: string)
    ensures ReadQuoted("'" + rest) == Ok(("", rest))
  {
    assert ("'" + rest)[1..] == rest;
  }

  /** libpq reads a quoted value back up to its own closing quote. */
  lemma {:induction false} QuotedReadsBack(value: string, rest: string)
    ensures ReadQuoted(EscapeAll(value) + "'" + rest) == Ok((value, rest))
  {
    hide ReadQuoted, Escape;
    var text := EscapeAll(value) + "'" + rest;
    if value == "" {
      assert text == "'" + rest;
      ReadClosing(rest);
    } else {
      var tail := EscapeAll(value[1..]) + "'" + rest;
      QuotedReadsBack(value[1..], rest);
      assert text == Escape(value[0]) + tail;
      ReadEscaped(value[0], tail);
      assert [value[0]] + value[1..] == value;
    }
  }

  lemma {:induction false} KeyReadsBack(key: string, rest: string)
    requires forall i | 0 <= i < |key| :: key[i] != '=' && !IsSpace(key[i])
    requires rest != "" && rest[0] == '='
    ensures ReadKey(key + rest) == (key, rest)
  {
    if key == "" {
      assert key + rest == rest;
    } else {
      assert (key + rest)[0] == key[0];
      assert (key + rest)[1..] == key[1..] + rest;
      KeyReadsBack(key[1..], rest);
      assert [key[0]] + key[1..] == key;
    }
  }

  /** Reading one printed setting leaves exactly the text after it. */
  lemma SettingReadsBack(s: Setting, rest: string)
    requires IsKeyword(s.key)
    ensures ReadSetting(s.key + "=" + Quoted(s.value) + rest) == Ok((s, rest))
  {
    hide ReadQuoted, ReadKey, ReadBare, EscapeAll, Replace;
    TwoPassesAreOneMap(s.value);
    var body := EscapeAll(s.value) + "'" + rest;
    var equals := "='" + body;
    assert s.key + "=" + Quoted(s.value) + rest == s.key + equals;
    KeyReadsBack(s.key, equals);
    assert equals[1..] == "'" + body;
    assert ("'" + body)[1..] == body;
    QuotedReadsBack(s.value, rest);
  }

  lemma SpaceIsSkipped(s: string)
    ensures ParseConninfo(" " + s) == ParseConninfo(s)
  {
    assert (" " + s)[1..] == s;
    assert SkipSpaces(" " + s) == SkipSpaces(s);
  }

  lemma {:induction false} ConninfoReadsBack(settings: seq<Setting>)
    requires forall s | s in settings :: IsKeyword(s.key)
    ensures ParseConninfo(Conninfo(settings)) == Ok(settings)
  {
    hide Quoted, ReadSetting, ReadQuoted, ReadKey;
    if settings != [] {
      var s := settings[0];
      ConninfoReadsBack(settings[1..]);
      var rest := if |settings| == 1 then "" else " " + Conninfo(settings[1..]);
      var text := s.key + "=" + Quoted(s.value) + rest;
      assert Conninfo(settings) == text;
      assert text[0] == s.key[0] && !IsSpace(s.key[0]);
      SettingReadsBack(s, rest);
      if |settings| > 1 { SpaceIsSkipped(Conninfo(settings[1..])); }
      assert [s] + settings[1..] == settings;
    }
  }

  /** The literal's value is the text with its quotes doubled once, and it ends only at
      the quote written around it. */
  lemma {:induction false} LiteralReadsBack(s: string, rest: string)
    requires rest == "" || rest[0] != '\''
    ensures ReadLiteral(Replace(s, '\'', "''") + "'" + rest) == Some((s, rest))
  {
    var text := Replace(s, '\'', "''") + "'" + rest;
    if s == "" {
      assert text == "'" + rest;
    } else {
      LiteralReadsBack(s[1..], rest);
      var tail := Replace(s[1..], '\'', "''") + "'" + rest;
      if s[0] == '\'' {
        assert text == "''" + tail;
        assert text[2..] == tail;
      } else {
        assert text == [s[0]] + tail;
        assert text[1..] == tail;
      }
      assert [s[0]] + s[1..] == s;
    }
  }

  /** The round trip: whatever the values hold, the SQL reader takes the literal to end at
      its outer quote, and libpq reads exactly the given settings out of it. */
  lemma RoundTrip(settings: seq<Setting>, rest: string)
    requires forall s | s in settings :: IsKeyword(s.key)
    requires rest == "" || rest[0] != '\''
    ensures var literal := ReadLiteral(AttachPath(settings) + "'" + rest);
      literal.Some? && literal.value.1 == rest && ParseConninfo(literal.value.0) == Ok(settings)
  {
    hide Replace, Conninfo, ReadLiteral, ParseConninfo, IsKeyword;
    LiteralReadsBack(Conninfo(settings), rest);
    ConninfoReadsBack(settings);
  }
}
