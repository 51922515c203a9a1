/** Printing points in InfluxDB line protocol, and reading such a line back. */
module Influx {
  import opened Wrappers
  import opened Bytes

  // ---- escaping ----------------------------------------------------------------------------

  /** s.replace(c, '\\' + c) */
  function Replace(s: string, c: char): string {
    if s == "" then "" else (if s[0] == c then ['\\', c] else [s[0]]) + Replace(s[1..], c)
  }

  /** _escape_influx: four replacements, one after the other. */
  function Escape(s: string): string {
    Replace(Replace(Replace(Replace(s, '\\'), ' '), ','), '=')
  }

  /** One pass that puts a backslash before each character of a set. */
  function EscapeSet(s: string, special: set<char>): string {
    if s == "" then "" else (if s[0] in special then ['\\', s[0]] else [s[0]]) + EscapeSet(s[1..], special)
  }

  const SPECIAL: set<char> := {'\\', ' ', ',', '='}

  lemma {:induction false} ReplaceAfterEscape(s: string, special: set<char>, c: char)
    requires c != '\\' && c !in special
    ensures Replace(EscapeSet(s, special), c) == EscapeSet(s, special + {c})
  {
    if s != "" {
      ReplaceAfterEscape(s[1..], special, c);
      var tail := EscapeSet(s[1..], special);
      if s[0] in special {
        var e := EscapeSet(s, special);
        assert e == ['\\', s[0]] + tail && e[0] == '\\' && e[1..] == [s[0]] + tail && e[1..][1..] == tail;
        assert Replace(e, c) == ['\\'] + Replace(e[1..], c);
      } else {
        assert EscapeSet(s, special)[1..] == tail;
      }
    }
  }

  lemma {:induction false} ReplaceIsEscape(s: string, c: char)
    ensures Replace(s, c) == EscapeSet(s, {c})
  {
    if s != "" {
      ReplaceIsEscape(s[1..], c);
    }
  }

  /** The four replacements amount to escaping each special character once. */
  lemma EscapeOnePass(s: string)
    ensures Escape(s) == EscapeSet(s, SPECIAL)
  {
    hide Replace, EscapeSet;
    ReplaceIsEscape(s, '\\');
    ReplaceAfterEscape(s, {'\\'}, ' ');
    ReplaceAfterEscape(s, {'\\'} + {' '}, ',');
    ReplaceAfterEscape(s, {'\\'} + {' '} + {','}, '=');
    assert {'\\'} + {' '} + {','} + {'='} == SPECIAL;
  }

  lemma {:induction false} EscapeSetConcat(a: string, b: string, special: set<char>)
    ensures EscapeSet(a + b, special) == EscapeSet(a, special) + EscapeSet(b, special)
  {
    if a == "" {
      assert a + b == b;
    } else {
      hide *;
      EscapeSetConcat(a[1..], b, special);
      EscapeSetStep(a, special);
      EscapeSetStep(a + b, special);
      assert (a + b)[1..] == a[1..] + b && (a + b)[0] == a[0];
      Associative(if a[0] in special then ['\\', a[0]] else [a[0]], EscapeSet(a[1..], special), EscapeSet(b, special));
    }
  }

  lemma Associative(a: string, b: string, c: string)
    ensures (a + b) + c == a + (b + c)
  {
  }

  lemma EscapeSetStep(s: string, special: set<char>)
    requires s != ""
    ensures EscapeSet(s, special) == (if s[0] in special then ['\\', s[0]] else [s[0]]) + EscapeSet(s[1..], special)
  {
  }

  /** Character by character: a backslash before a backslash, space, comma or equals sign. */
  lemma EscapeMeaning(a: string, b: string, c: char)
    ensures Escape(a + b) == Escape(a) + Escape(b) && Escape("") == ""
    ensures Escape([c]) == if c == '\\' || c == ' ' || c == ',' || c == '=' then ['\\', c] else [c]
  {
    EscapeOnePass(a + b);
    EscapeOnePass(a);
    EscapeOnePass(b);
    EscapeOnePass([c]);
    EscapeOnePass("");
    hide Escape;
    EscapeSetConcat(a, b, SPECIAL);
    assert [c][1..] == "";
  }

  function Unescape(s: string): string {
    if s == "" then ""
    else if s[0] == '\\' && |s| > 1 then [s[1]] + Unescape(s[2..])
    else [s[0]] + Unescape(s[1..])
  }

  lemma {:induction false} UnescapeEscapeSet(s: string, special: set<char>)
    requires '\\' in special
    ensures Unescape(EscapeSet(s, special)) == s
  {
    if s != "" {
      UnescapeEscapeSet(s[1..], special);
      var e, tail := EscapeSet(s, special), EscapeSet(s[1..], special);
      if s[0] in special {
        assert e == ['\\', s[0]] + tail && e[2..] == tail;
      } else {
        assert e[1..] == tail;
      }
    }
  }

  /** Every name comes back. */
  lemma UnescapeEscape(s: string)
    ensures Unescape(Escape(s)) == s
  {
    EscapeOnePass(s);
    UnescapeEscapeSet(s, SPECIAL);
  }

  // ---- splitting at unescaped separators ---------------------------------------------------

  /** Everything before the first separator that no backslash precedes. */
  function Head(s: string, sep: char): (h: string)
    ensures |h| <= |s| && (|h| < |s| ==> s[|h|] == sep)
  {
    if s == "" then ""
    else if s[0] == '\\' && |s| >= 2 then s[..2] + Head(s[2..], sep)
    else if s[0] == sep then ""
    else [s[0]] + Head(s[1..], sep)
  }

  function Split(s: string, sep: char): (parts: seq<string>)
    ensures parts != []
    decreases |s|
  {
    var h := Head(s, sep);
    if |h| == |s| then [s] else [h] + Split(s[|h| + 1..], sep)
  }

  function Join(parts: seq<string>, sep: char): string {
    if parts == [] then "" else if |parts| == 1 then parts[0] else parts[0] + [sep] + Join(parts[1..], sep)
  }

  /** No unescaped separator inside, and no backslash left open at the end. */
  predicate Clean(s: string, sep: char) {
    s == ""
    || (s[0] == '\\' && |s| >= 2 && Clean(s[2..], sep))
    || (s[0] != '\\' && s[0] != sep && Clean(s[1..], sep))
  }

  lemma {:induction false} CleanAppend(a: string, b: string, sep: char)
    requires Clean(a, sep) && Clean(b, sep)
    ensures Clean(a + b, sep)
    decreases |a|
  {
    if a == "" {
      assert a + b == b;
    } else {
      var n := if a[0] == '\\' then 2 else 1;
      CleanAppend(a[n..], b, sep);
      assert (a + b)[n..] == a[n..] + b;
    }
  }

  lemma {:induction false} HeadOfClean(a: string, rest: string, sep: char)
    requires Clean(a, sep) && sep != '\\' && (rest == "" || rest[0] == sep)
    ensures Head(a + rest, sep) == a
    decreases |a|
  {
    if a == "" {
      assert a + rest == rest;
    } else {
      var n := if a[0] == '\\' then 2 else 1;
      assert n <= |a| && Clean(a[n..], sep) && (n == 1 ==> a[0] != '\\' && a[0] != sep);
      hide *;
      HeadOfClean(a[n..], rest, sep);
      if n == 2 {
        HeadEscaped(a[..n], a[n..] + rest, sep);
      } else {
        assert a[..n] == [a[0]];
        HeadPlain(a[0], a[n..] + rest, sep);
      }
      Regroup(a, n, rest);
    }
  }

  lemma Regroup(a: string, n: nat, rest: string)
    requires n <= |a|
    ensures a[..n] + (a[n..] + rest) == a + rest && a[..n] + a[n..] == a
  {
  }

  lemma HeadEscaped(e: string, rest: string, sep: char)
    requires |e| == 2 && e[0] == '\\'
    ensures Head(e + rest, sep) == e + Head(rest, sep)
  {
    assert (e + rest)[..2] == e && (e + rest)[2..] == rest;
  }

  lemma HeadPlain(c: char, rest: string, sep: char)
    requires c != '\\' && c != sep
    ensures Head([c] + rest, sep) == [c] + Head(rest, sep)
  {
    assert ([c] + rest)[1..] == rest;
  }

  predicate AllClean(parts: seq<string>, sep: char) {
    forall i | 0 <= i < |parts| :: Clean(parts[i], sep)
  }

  /** Splitting undoes joining. */
  lemma {:induction false} SplitJoin(parts: seq<string>, sep: char)
    requires parts != [] && AllClean(parts, sep) && sep != '\\'
    ensures Split(Join(parts, sep), sep) == parts
    decreases |parts|
  {
    hide Clean, Head;
    var s := Join(parts, sep);
    if |parts| == 1 {
      HeadOfClean(s, "", sep);
      assert s + "" == s;
    } else {
      var rest := [sep] + Join(parts[1..], sep);
      assert s == parts[0] + rest;
      HeadOfClean(parts[0], rest, sep);
      assert s[|parts[0]| + 1..] == Join(parts[1..], sep);
      SplitJoin(parts[1..], sep);
    }
  }

  lemma {:induction false} EscapeSetClean(s: string, special: set<char>, sep: char)
    requires sep in special && '\\' in special
    ensures Clean(EscapeSet(s, special), sep)
  {
    if s != "" {
      EscapeSetClean(s[1..], special, sep);
      var e, tail := EscapeSet(s, special), EscapeSet(s[1..], special);
      if s[0] in special {
        assert e == ['\\', s[0]] + tail && e[2..] == tail;
      } else {
        assert e[1..] == tail;
      }
    }
  }

  lemma EscapeClean(s: string, sep: char)
    requires sep in SPECIAL
    ensures Clean(Escape(s), sep)
  {
    EscapeOnePass(s);
    EscapeSetClean(s, SPECIAL, sep);
  }

  // ---- lines -------------------------------------------------------------------------------

  /** A number comes as its printed text; None and NaN are Absent. */
  datatype Field = Flag(b: bool) | Text(s: string) | Number(text: string) | Absent

  function QuoteText(s: string): string {
    "\"" + Replace(Replace(s, '\\'), '\"') + "\""
  }

  function FieldText(f: Field): string
    requires !f.Absent?
  {
    match f
    case Flag(b) => if b then "t" else "f"
    case Text(s) => QuoteText(s)
    case Number(text) => text
  }

  function Pair(key: string, value: string): string { Escape(key) + "=" + value }

  /** The tags that are printed: those with a value. */
  function KeptTags(tags: seq<(string, string)>): seq<(string, string)> {
    if tags == [] then []
    else KeptTags(tags[..|tags| - 1]) + if tags[|tags| - 1].1 == "" then [] else [tags[|tags| - 1]]
  }

  function KeptFields(fields: seq<(string, Field)>): (kept: seq<(string, Field)>)
    ensures Present(kept)
  {
    if fields == [] then []
    else KeptFields(fields[..|fields| - 1]) + if fields[|fields| - 1].1.Absent? then [] else [fields[|fields| - 1]]
  }

  /** Of the tags and fields, in their order, those without a value are left out and all others kept. */
  lemma {:induction false} KeptTagsConcat(a: seq<(string, string)>, b: seq<(string, string)>, tag: (string, string))
    ensures KeptTags(a + b) == KeptTags(a) + KeptTags(b) && KeptTags([]) == []
    ensures KeptTags([tag]) == if tag.1 == "" then [] else [tag]
    decreases |b|
  {
    assert [tag][..0] == [];
    if b == [] {
      assert a + b == a;
    } else {
      KeptTagsConcat(a, b[..|b| - 1], tag);
      TakeAll(a, b);
    }
  }

  lemma {:induction false} KeptFieldsConcat(a: seq<(string, Field)>, b: seq<(string, Field)>, field: (string, Field))
    ensures KeptFields(a + b) == KeptFields(a) + KeptFields(b) && KeptFields([]) == []
    ensures KeptFields([field]) == if field.1 == Absent then [] else [field]
    decreases |b|
  {
    assert [field][..0] == [];
    if b == [] {
      assert a + b == a;
    } else {
      KeptFieldsConcat(a, b[..|b| - 1], field);
      TakeAll(a, b);
    }
  }

  predicate Present(fields: seq<(string, Field)>) {
    forall i | 0 <= i < |fields| :: !fields[i].1.Absent?
  }

  function TagParts(tags: seq<(string, string)>): seq<string> {
    seq(|tags|, i requires 0 <= i < |tags| => Pair(tags[i].0, Escape(tags[i].1)))
  }

  function FieldParts(fields: seq<(string, Field)>): seq<string>
    requires Present(fields)
  {
    seq(|fields|, i requires 0 <= i < |fields| => Pair(fields[i].0, FieldText(fields[i].1)))
  }

  /** A line: measurement and tags, fields, time stamp. */
  function Line(measurement: string, tags: seq<(string, string)>, fields: seq<(string, Field)>, ts: string): string
    requires Present(fields)
  {
    Join([Join([Escape(measurement)] + TagParts(tags), ','), Join(FieldParts(fields), ','), ts], ' ')
  }

  /** A line of one tag and one field: commas before tags, one space before the fields and the time stamp. */
  lemma LineMeaning(measurement: string, tag: (string, string), field: (string, Field), ts: string)
    requires field.1 != Absent
    ensures Line(measurement, [tag], [field], ts) ==
              Escape(measurement) + "," + Escape(tag.0) + "=" + Escape(tag.1)
              + " " + Escape(field.0) + "=" + FieldText(field.1) + " " + ts
    ensures Line(measurement, [], [field], ts) ==
              Escape(measurement) + " " + Escape(field.0) + "=" + FieldText(field.1) + " " + ts
    ensures FieldText(Flag(true)) == "t" && FieldText(Flag(false)) == "f"
  {
    hide Escape;
    var head := [Escape(measurement)] + TagParts([tag]);
    assert head == [Escape(measurement), Pair(tag.0, Escape(tag.1))] && head[1..] == [Pair(tag.0, Escape(tag.1))];
    assert [Escape(measurement)] + TagParts([]) == [Escape(measurement)];
    assert FieldParts([field]) == [Pair(field.0, FieldText(field.1))];
    JoinThree(Join(head, ','), Join(FieldParts([field]), ','), ts);
    JoinThree(Escape(measurement), Join(FieldParts([field]), ','), ts);
    hide FieldText;
    assert Join(head, ',') == Escape(measurement) + [','] + Pair(tag.0, Escape(tag.1));
  }

  /** More tags and fields follow behind commas. */
  lemma JoinMeaning(parts: seq<string>, last: string, sep: char)
    requires parts != []
    ensures Join(parts + [last], sep) == Join(parts, sep) + [sep] + last && Join([last], sep) == last
  {
    JoinSnoc(parts, last, sep);
  }

  /** Texts are quoted, with a backslash before each quote and backslash. */
  lemma QuoteMeaning(a: string, b: string, c: char)
    ensures QuoteText(a + b) == QuoteText(a)[..|QuoteText(a)| - 1] + QuoteText(b)[1..]
    ensures QuoteText([c]) == if c == '\"' || c == '\\' then ['\"', '\\', c, '\"'] else ['\"', c, '\"']
    ensures QuoteText("") == "\"\""
  {
    QuoteIsEscape(a + b);
    QuoteIsEscape(a);
    QuoteIsEscape(b);
    QuoteIsEscape([c]);
    QuoteIsEscape("");
    EscapeSetConcat(a, b, {'\\', '\"'});
    hide QuoteText;
    assert [c][1..] == "";
  }

  lemma QuoteIsEscape(s: string)
    ensures QuoteText(s) == "\"" + EscapeSet(s, {'\\', '\"'}) + "\""
  {
    hide Replace, EscapeSet;
    ReplaceIsEscape(s, '\\');
    ReplaceAfterEscape(s, {'\\'}, '\"');
    assert {'\\'} + {'\"'} == {'\\', '\"'};
  }

  /** Tags and fields that are not there are left out; without fields there is no line. */
  method ToLine(measurement: string, tags: seq<(string, string)>, fields: seq<(string, Field)>, ts: string)
    returns (line: string)
    ensures line == if KeptFields(fields) == [] then "" else Line(measurement, KeptTags(tags), KeptFields(fields), ts)
  {
    hide Escape, Pair;
    var head := HeadText(measurement, tags);
    var fieldParts: seq<string> := [];
    for i := 0 to |fields|
      invariant fieldParts == FieldParts(KeptFields(fields[..i]))
    {
      assert fields[..i + 1][..i] == fields[..i];
      if fields[i].1.Absent? {
        continue;
      }
      fieldParts := fieldParts + [Pair(fields[i].0, FieldText(fields[i].1))];
    }
    assert fields[..|fields|] == fields;
    if fieldParts == [] {
      return "";
    }
    line := head + " " + Join(fieldParts, ',') + " " + ts;
    JoinThree(head, Join(fieldParts, ','), ts);
  }

  method HeadText(measurement: string, tags: seq<(string, string)>) returns (head: string)
    ensures head == Join([Escape(measurement)] + TagParts(KeptTags(tags)), ',')
  {
    hide Escape, Pair;
    head := Escape(measurement);
    ghost var parts := [Escape(measurement)];
    for i := 0 to |tags|
      invariant parts == [Escape(measurement)] + TagParts(KeptTags(tags[..i])) && head == Join(parts, ',')
    {
      assert tags[..i + 1][..i] == tags[..i];
      if tags[i].1 != "" {
        JoinSnoc(parts, Pair(tags[i].0, Escape(tags[i].1)), ',');
        head := head + "," + Pair(tags[i].0, Escape(tags[i].1));
        parts := parts + [Pair(tags[i].0, Escape(tags[i].1))];
        assert parts == [Escape(measurement)] + TagParts(KeptTags(tags[..i + 1]));
      }
    }
    assert tags[..|tags|] == tags;
  }

  lemma JoinThree(a: string, b: string, c: string)
    ensures Join([a, b, c], ' ') == a + " " + b + " " + c
  {
    assert [a, b, c][1..] == [b, c] && [b, c][1..] == [c];
    assert Join([b, c], ' ') == b + [' '] + c;
  }

  lemma {:induction false} JoinSnoc(parts: seq<string>, last: string, sep: char)
    requires parts != []
    ensures Join(parts + [last], sep) == Join(parts, sep) + [sep] + last
  {
    if |parts| == 1 {
      assert (parts + [last])[1..] == [last];
    } else {
      assert (parts + [last])[1..] == parts[1..] + [last];
      JoinSnoc(parts[1..], last, sep);
    }
  }

  // ---- reading a line back -----------------------------------------------------------------

  datatype Point = Point(measurement: string, tags: seq<(string, string)>, fields: seq<(string, Field)>, ts: string)

  function ReadTags(parts: seq<string>): seq<(string, string)> {
    if parts == [] then []
    else
      var kv := Split(parts[0], '=');
      [(Unescape(kv[0]), if |kv| < 2 then "" else Unescape(kv[1]))] + ReadTags(parts[1..])
  }

  /** The text up to the first comma or space. */
  function Bare(s: string): (b: string)
    ensures |b| <= |s|
  {
    if s == "" || s[0] == ',' || s[0] == ' ' then "" else [s[0]] + Bare(s[1..])
  }

  /** The text of the value that s begins with; a quoted one ends at the first quote that is not escaped. */
  function ValueText(s: string): (v: string)
    ensures |v| <= |s|
  {
    if s != "" && s[0] == '\"' then
      var n := |Head(s[1..], '\"')| + 2;
      if n <= |s| then s[..n] else s
    else Bare(s)
  }

  function ValueOf(text: string): Field {
    if |text| >= 2 && text[0] == '\"' then Text(Unescape(text[1..|text| - 1]))
    else if text == "t" then Flag(true)
    else if text == "f" then Flag(false)
    else Number(text)
  }

  /** The fields that s begins with, and what follows the space behind them. */
  function ReadFields(s: string): Option<(seq<(string, Field)>, string)>
    decreases |s|
  {
    var key := Head(s, '=');
    if |key| == |s| then None
    else
      var after := s[|key| + 1..];
      var v := ValueText(after);
      var next := after[|v|..];
      var field := (Unescape(key), ValueOf(v));
      if next == "" then None
      else if next[0] == ' ' then Some(([field], next[1..]))
      else if next[0] != ',' then None
      else
        match ReadFields(next[1..])
        case None => None
        case Some((fields, rest)) => Some(([field] + fields, rest))
  }

  function ReadLine(line: string): Option<Point> {
    var head := Head(line, ' ');
    if |head| == |line| then None
    else
      var parts := Split(head, ',');
      match ReadFields(line[|head| + 1..])
      case None => None
      case Some((fields, ts)) => Some(Point(Unescape(parts[0]), ReadTags(parts[1..]), fields, ts))
  }

  /** A text that cannot be mistaken for another kind of value, as printed numbers are. */
  predicate NumberText(s: string) {
    && s != "" && s != "t" && s != "f" && s[0] != '\"'
    && forall i | 0 <= i < |s| :: s[i] != ',' && s[i] != ' '
  }

  lemma {:induction false} BareOfPlain(v: string, rest: string)
    requires rest != "" && (rest[0] == ',' || rest[0] == ' ')
    requires forall i | 0 <= i < |v| :: v[i] != ',' && v[i] != ' '
    ensures Bare(v + rest) == v
  {
    if v == "" {
      assert v + rest == rest;
    } else {
      assert (v + rest)[1..] == v[1..] + rest;
      BareOfPlain(v[1..], rest);
    }
  }

  lemma QuoteOnePass(s: string)
    ensures QuoteText(s) == "\"" + EscapeSet(s, {'\\', '\"'}) + "\""
  {
    hide Replace, EscapeSet;
    ReplaceIsEscape(s, '\\');
    ReplaceAfterEscape(s, {'\\'}, '\"');
    assert {'\\'} + {'\"'} == {'\\', '\"'};
  }

  /** A quoted text is found to its end whatever it holds, and comes back. */
  lemma QuotedValue(s: string, rest: string)
    ensures ValueText(QuoteText(s) + rest) == QuoteText(s) && ValueOf(QuoteText(s)) == Text(s)
  {
    QuoteOnePass(s);
    var body := EscapeSet(s, {'\\', '\"'});
    EscapeSetClean(s, {'\\', '\"'}, '\"');
    UnescapeEscapeSet(s, {'\\', '\"'});
    hide EscapeSet, Clean, Head, QuoteText, Unescape;
    var all := QuoteText(s) + rest;
    assert all[1..] == body + ("\"" + rest);
    HeadOfClean(body, "\"" + rest, '\"');
    assert all[..|body| + 2] == QuoteText(s);
    assert QuoteText(s)[1..|QuoteText(s)| - 1] == body;
  }

  lemma OneValue(f: Field, rest: string)
    requires !f.Absent? && (f.Number? ==> NumberText(f.text))
    requires rest != "" && (rest[0] == ',' || rest[0] == ' ')
    ensures ValueText(FieldText(f) + rest) == FieldText(f) && ValueOf(FieldText(f)) == f
  {
    if f.Text? {
      QuotedValue(f.s, rest);
    } else {
      BareOfPlain(FieldText(f), rest);
    }
  }

  lemma KeyOfPair(key: string, value: string, rest: string)
    ensures var s := Pair(key, value) + rest;
            Head(s, '=') == Escape(key) && |Escape(key)| < |s| && s[|Escape(key)| + 1..] == value + rest
  {
    hide Escape, Clean, Head;
    EscapeClean(key, '=');
    HeadOfClean(Escape(key), "=" + value + rest, '=');
    assert Pair(key, value) + rest == Escape(key) + ("=" + value + rest);
  }

  predicate Readable(fields: seq<(string, Field)>) {
    Present(fields) && forall i | 0 <= i < |fields| && fields[i].1.Number? :: NumberText(fields[i].1.text)
  }

  /** One step of reading fields. */
  lemma ReadOne(k: string, f: Field, more: string)
    requires !f.Absent? && (f.Number? ==> NumberText(f.text))
    requires more != "" && (more[0] == ',' || more[0] == ' ')
    ensures ReadFields(Pair(k, FieldText(f)) + more) ==
              if more[0] == ' ' then Some(([(k, f)], more[1..]))
              else match ReadFields(more[1..])
                   case None => None
                   case Some((fields, rest)) => Some(([(k, f)] + fields, rest))
  {
    hide Escape, Unescape, Head, ValueText, ValueOf, FieldText, Pair, NumberText;
    KeyOfPair(k, FieldText(f), more);
    OneValue(f, more);
    UnescapeEscape(k);
    assert (FieldText(f) + more)[|FieldText(f)|..] == more;
  }

  lemma JoinFields(fields: seq<(string, Field)>, ts: string)
    requires fields != [] && Present(fields)
    ensures Join(FieldParts(fields), ',') + " " + ts ==
              Pair(fields[0].0, FieldText(fields[0].1))
              + if |fields| == 1 then " " + ts else "," + (Join(FieldParts(fields[1..]), ',') + " " + ts)
  {
    hide Pair, FieldText;
    assert FieldParts(fields)[1..] == FieldParts(fields[1..]);
  }

  /** Fields followed by a space are read back. */
  lemma {:induction false} FieldsRoundTrip(fields: seq<(string, Field)>, ts: string)
    requires fields != [] && Readable(fields)
    ensures ReadFields(Join(FieldParts(fields), ',') + " " + ts) == Some((fields, ts))
    decreases |fields|
  {
    var (k, f) := fields[0];
    assert !f.Absent? && (f.Number? ==> NumberText(f.text));
    JoinFields(fields, ts);
    hide *;
    if |fields| == 1 {
      Behind(' ', ts);
      ReadOne(k, f, " " + ts);
    } else {
      var rest := Join(FieldParts(fields[1..]), ',') + " " + ts;
      ReadableRest(fields);
      FieldsRoundTrip(fields[1..], ts);
      Behind(',', rest);
      ReadOne(k, f, "," + rest);
    }
    FirstAndRest(fields);
  }

  lemma Behind(c: char, rest: string)
    ensures ([c] + rest)[0] == c && ([c] + rest)[1..] == rest
  {
  }

  lemma FirstAndRest<T>(s: seq<T>)
    requires s != []
    ensures [s[0]] + s[1..] == s && (|s| == 1 ==> [s[0]] == s)
  {
  }

  lemma ReadableRest(fields: seq<(string, Field)>)
    requires fields != [] && Readable(fields)
    ensures Readable(fields[1..]) && Present(fields[1..])
  {
    hide NumberText;
  }

  lemma PairClean(key: string, value: string, sep: char)
    requires (sep == ' ' || sep == ',') && Clean(value, sep)
    ensures Clean(Pair(key, value), sep)
  {
    hide Escape;
    EscapeClean(key, sep);
    assert Clean("=", sep) by {
      assert "="[1..] == "";
    }
    CleanAppend(Escape(key), "=", sep);
    CleanAppend(Escape(key) + "=", value, sep);
  }

  lemma {:induction false} JoinClean(parts: seq<string>, sep: char, other: char)
    requires AllClean(parts, other) && sep != other && sep != '\\'
    ensures Clean(Join(parts, sep), other)
  {
    if |parts| > 1 {
      JoinClean(parts[1..], sep, other);
      assert Clean([sep], other) by {
        assert [sep][1..] == "";
      }
      CleanAppend(parts[0], [sep], other);
      CleanAppend(parts[0] + [sep], Join(parts[1..], sep), other);
    }
  }

  lemma SplitPair(key: string, value: string)
    requires Clean(value, '=')
    ensures Split(Pair(key, value), '=') == [Escape(key), value]
  {
    hide Escape, Clean;
    EscapeClean(key, '=');
    SplitJoin([Escape(key), value], '=');
    assert [Escape(key), value][1..] == [value];
    assert Join([Escape(key), value], '=') == Pair(key, value);
  }

  lemma {:induction false} TagsRoundTrip(tags: seq<(string, string)>)
    ensures ReadTags(TagParts(tags)) == tags
  {
    hide Escape, Unescape, Split;
    if tags != [] {
      var (k, v) := tags[0];
      EscapeClean(v, '=');
      SplitPair(k, Escape(v));
      UnescapeEscape(k);
      UnescapeEscape(v);
      TagsRoundTrip(tags[1..]);
      assert TagParts(tags)[1..] == TagParts(tags[1..]);
    }
  }

  /**
   Round trip: a printed line is read back as the measurement, tags and fields that went in, for
   all names, tag values and texts, whatever characters they hold.
   */
  lemma LineRoundTrip(measurement: string, tags: seq<(string, string)>, fields: seq<(string, Field)>, ts: string)
    requires fields != [] && Readable(fields)
    ensures ReadLine(Line(measurement, tags, fields, ts)) == Some(Point(measurement, tags, fields, ts))
  {
    hide Escape, Unescape, Clean, Split, Head, Pair, ReadFields, ReadTags, NumberText, FieldParts, TagParts;
    var headParts := [Escape(measurement)] + TagParts(tags);
    var head, body := Join(headParts, ','), Join(FieldParts(fields), ',');
    HeadClean(measurement, tags, ' ');
    HeadClean(measurement, tags, ',');
    JoinClean(headParts, ',', ' ');
    JoinThree(head, body, ts);
    hide Join;
    var rest := " " + (body + " " + ts);
    assert Line(measurement, tags, fields, ts) == head + rest;
    HeadOfClean(head, rest, ' ');
    SplitJoin(headParts, ',');
    assert headParts[1..] == TagParts(tags);
    UnescapeEscape(measurement);
    TagsRoundTrip(tags);
    FieldsRoundTrip(fields, ts);
    assert (head + rest)[|head| + 1..] == body + " " + ts;
  }

  lemma HeadClean(measurement: string, tags: seq<(string, string)>, sep: char)
    requires sep == ' ' || sep == ','
    ensures AllClean([Escape(measurement)] + TagParts(tags), sep)
  {
    hide Escape, Clean, Pair;
    EscapeClean(measurement, sep);
    forall i | 0 <= i < |tags|
      ensures Clean(TagParts(tags)[i], sep)
    {
      EscapeClean(tags[i].1, sep);
      PairClean(tags[i].0, Escape(tags[i].1), sep);
    }
  }
}
