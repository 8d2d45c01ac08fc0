/** The naming-style converters of the helper package: camelCase, PascalCase, snake_case and
    kebab-case. Words are Go's strings.Fields (runs of Unicode white space separate them); letter
    case is changed for ASCII letters only, and Title upper-cases a letter that follows a
    separator the way strings.Title does. */
module CaseStyle {
  import opened Text

  /** unicode.IsSpace. */
  predicate IsSpace(c: char) {
    var n := c as int;
    n == 0x20 || (0x09 <= n <= 0x0D) || n == 0x85 || n == 0xA0 || n == 0x1680 ||
    (0x2000 <= n <= 0x200A) || n == 0x2028 || n == 0x2029 || n == 0x202F || n == 0x205F || n == 0x3000
  }

  predicate IsUpper(c: char) { 'A' <= c <= 'Z' }

  predicate IsLower(c: char) { 'a' <= c <= 'z' }

  function Lower(c: char): (l: char)
    ensures !IsUpper(l)
    ensures IsUpper(c) ==> l as int == c as int + 32
    ensures !IsUpper(c) ==> l == c
  {
    if IsUpper(c) then (c as int + 32) as char else c
  }

  function Upper(c: char): (u: char)
    ensures !IsLower(u)
    ensures IsLower(c) ==> u as int == c as int - 32
    ensures !IsLower(c) ==> u == c
  {
    if IsLower(c) then (c as int - 32) as char else c
  }

  /** Upper-casing a letter and lower-casing it again gives its lower case. */
  lemma LowerUpper(c: char)
    ensures Lower(Upper(c)) == Lower(c)
  {
  }

  /** strings.ToLower, on ASCII letters. */
  function LowerAll(s: string): string
  {
    seq(|s|, i requires 0 <= i < |s| => Lower(s[i]))
  }

  predicate NoUpper(s: string) { forall i :: 0 <= i < |s| ==> !IsUpper(s[i]) }

  predicate NoSpace(s: string) { forall i :: 0 <= i < |s| ==> !IsSpace(s[i]) }

  predicate AllSpace(s: string) { forall i :: 0 <= i < |s| ==> IsSpace(s[i]) }

  /** The characters of s that are not white space, in order. */
  function RemoveSpaces(s: string): (r: string)
    ensures NoSpace(r)
  {
    if s == [] then [] else (if IsSpace(s[0]) then [] else [s[0]]) + RemoveSpaces(s[1..])
  }

  /** The characters of s other than c, in order. */
  function Remove(s: string, c: char): string {
    if s == [] then [] else (if s[0] == c then [] else [s[0]]) + Remove(s[1..], c)
  }

  /** strings.Fields, scanning with the word `cur` read so far. */
  function FieldsFrom(s: string, cur: string): (words: seq<string>)
    requires NoSpace(cur)
    ensures forall i :: 0 <= i < |words| ==> words[i] != [] && NoSpace(words[i])
    ensures words == [] <==> cur == [] && AllSpace(s)
    decreases |s|
  {
    if s == [] then (if cur == [] then [] else [cur])
    else if IsSpace(s[0]) then
      (if cur == [] then FieldsFrom(s[1..], []) else [cur] + FieldsFrom(s[1..], []))
    else
      FieldsFrom(s[1..], cur + [s[0]])
  }

  /** strings.Fields: the maximal runs of non-space characters. None is empty or holds a
      space, and there are none exactly when s is all white space. */
  function Fields(s: string): (words: seq<string>)
    ensures forall i :: 0 <= i < |words| ==> words[i] != [] && NoSpace(words[i])
    ensures words == [] <==> AllSpace(s)
  {
    FieldsFrom(s, [])
  }

  /** The words hold exactly the non-space characters, in order. */
  lemma {:induction false} FieldsFromConcat(s: string, cur: string)
    requires NoSpace(cur)
    ensures Concat(FieldsFrom(s, cur)) == cur + RemoveSpaces(s)
    decreases |s|
  {
    if s == [] {
      if cur != [] { assert Concat([cur]) == cur + Concat([]); }
    } else if IsSpace(s[0]) {
      FieldsFromConcat(s[1..], []);
      if cur != [] {
        var rest := FieldsFrom(s[1..], []);
        assert ([cur] + rest)[1..] == rest;
      }
    } else {
      FieldsFromConcat(s[1..], cur + [s[0]]);
    }
  }

  lemma FieldsConcat(s: string)
    ensures Concat(Fields(s)) == RemoveSpaces(s)
  {
    FieldsFromConcat(s, []);
  }

  /** A string without white space is its own single word (or no word when empty). */
  lemma {:induction false} FieldsFromNoSpace(s: string, cur: string)
    requires NoSpace(cur) && NoSpace(s)
    ensures FieldsFrom(s, cur) == if cur + s == [] then [] else [cur + s]
    decreases |s|
  {
    if s == [] {
      assert cur + s == cur;
    } else {
      assert !IsSpace(s[0]);
      FieldsFromNoSpace(s[1..], cur + [s[0]]);
      assert cur + [s[0]] + s[1..] == cur + s;
    }
  }

  /** Where Title upper-cases the next character: after an ASCII character that is not a
      letter, a digit or '_', or after a non-ASCII space. */
  predicate IsSeparator(c: char) {
    if c as int < 0x80 then !(IsLower(c) || IsUpper(c) || ('0' <= c <= '9') || c == '_')
    else IsSpace(c)
  }

  /** strings.Title, with `afterSeparator` telling whether the previous character was a
      separator (the start of the string counts as one). */
  function TitleFrom(w: string, afterSeparator: bool): (r: string)
    ensures |r| == |w|
    ensures w != [] ==> r[0] == if afterSeparator then Upper(w[0]) else w[0]
    ensures forall i :: 0 <= i < |w| ==> (r[i] == w[i] || r[i] == Upper(w[i]))
    decreases |w|
  {
    if w == [] then []
    else [if afterSeparator then Upper(w[0]) else w[0]] + TitleFrom(w[1..], IsSeparator(w[0]))
  }

  /** After the first character, TitleFrom upper-cases exactly the characters that follow a
      separator. */
  lemma {:induction false} TitleFromRule(w: string, afterSeparator: bool)
    ensures var r := TitleFrom(w, afterSeparator);
      forall i :: 0 < i < |w| ==> r[i] == if IsSeparator(w[i - 1]) then Upper(w[i]) else w[i]
    decreases |w|
  {
    if w != [] {
      var rest := TitleFrom(w[1..], IsSeparator(w[0]));
      var r := TitleFrom(w, afterSeparator);
      TitleFromRule(w[1..], IsSeparator(w[0]));
      assert r == [if afterSeparator then Upper(w[0]) else w[0]] + rest;
      forall i | 0 < i < |w| ensures r[i] == if IsSeparator(w[i - 1]) then Upper(w[i]) else w[i] {
        assert r[i] == rest[i - 1] && w[1..][i - 1] == w[i];
        if i > 1 {
          assert w[1..][i - 2] == w[i - 1];
        }
      }
    }
  }

  /** strings.Title: the first letter of the word and every letter after a separator upper-cased;
      only letter case changes. */
  function Title(w: string): (r: string)
    ensures |r| == |w|
    ensures w != [] ==> r[0] == Upper(w[0])
  {
    TitleFrom(w, true)
  }

  /** strings.Title's rule: the first character and every character after a separator are
      upper-cased, and every other character is left as it is. */
  lemma TitleRule(w: string)
    ensures |Title(w)| == |w| && (w != [] ==> Title(w)[0] == Upper(w[0]))
    ensures forall i :: 0 < i < |w| ==> Title(w)[i] == if IsSeparator(w[i - 1]) then Upper(w[i]) else w[i]
  {
    TitleFromRule(w, true);
  }

  /** Title changes letter case only. */
  lemma TitleKeepsLetters(w: string)
    ensures LowerAll(Title(w)) == LowerAll(w)
  {
    var r := Title(w);
    forall i | 0 <= i < |w| ensures Lower(r[i]) == Lower(w[i]) { LowerUpper(w[i]); }
  }

  function TitleAll(ws: seq<string>): (r: seq<string>)
    ensures |r| == |ws| && forall i :: 0 <= i < |ws| ==> r[i] == Title(ws[i])
  {
    seq(|ws|, i requires 0 <= i < |ws| => Title(ws[i]))
  }

  /** The snake/kebab rewriting of a string without white space: each character lower-cased, and
      `sep` inserted before an upper-case letter that is not the first character and does not
      follow a `sep`. (The byte before a non-ASCII character is never `sep`, so comparing the
      previous character gives the same answer as the source's byte comparison.) */
  function SplitCamel(t: string, sep: char): (r: string)
    ensures !IsUpper(sep) ==> NoUpper(r)
    ensures NoUpper(t) ==> r == t
    decreases |t|
  {
    if t == [] then []
    else
      var last := t[|t| - 1];
      var mark := if |t| > 1 && IsUpper(last) && t[|t| - 2] != sep then [sep] else [];
      assert NoUpper(t) ==> t == t[..|t| - 1] + [last];
      SplitCamel(t[..|t| - 1], sep) + mark + [Lower(last)]
  }

  /** The loop of ToSnakeCase and ToKebabCase, writing into a builder. */
  method InsertSeparators(t: string, sep: char) returns (r: string)
    ensures r == SplitCamel(t, sep)
  {
    r := [];
    for i := 0 to |t|
      invariant r == SplitCamel(t[..i], sep)
    {
      assert t[..i + 1][..i] == t[..i];
      if i > 0 && IsUpper(t[i]) && t[i - 1] != sep {
        r := r + [sep];
      }
      r := r + [Lower(t[i])];
    }
    assert t[..|t|] == t;
  }

  /** The body ToSnakeCase and ToKebabCase share: white-space runs become a single `sep`, then
      camel humps are split with `sep`. */
  method ToSeparatedCase(s: string, sep: char) returns (r: string)
    ensures r == SplitCamel(Join(Fields(s), [sep]), sep)
  {
    var joined := Join(Fields(s), [sep]);
    r := InsertSeparators(joined, sep);
  }

  /** ToSnakeCase: the rewriting with '_'. */
  method ToSnakeCase(s: string) returns (r: string)
    ensures r == SplitCamel(Join(Fields(s), "_"), '_')
  {
    r := ToSeparatedCase(s, '_');
  }

  /** ToKebabCase: the same rewriting with '-'. */
  method ToKebabCase(s: string) returns (r: string)
    ensures r == SplitCamel(Join(Fields(s), "-"), '-')
  {
    r := ToSeparatedCase(s, '-');
  }

  /** Without white space in, none comes out. */
  lemma {:induction false} SplitCamelNoSpace(t: string, sep: char)
    requires !IsSpace(sep) && NoSpace(t)
    ensures NoSpace(SplitCamel(t, sep))
    decreases |t|
  {
    if t != [] { SplitCamelNoSpace(t[..|t| - 1], sep); }
  }

  lemma {:induction false} RemoveAppend(a: string, b: string, c: char)
    ensures Remove(a + b, c) == Remove(a, c) + Remove(b, c)
    decreases |a|
  {
    if a != [] {
      assert (a + b)[0] == a[0];
      assert (a + b)[1..] == a[1..] + b;
      RemoveAppend(a[1..], b, c);
    } else {
      assert a + b == b;
    }
  }

  /** Nothing is lost: dropping the separators from the result gives the input, with its own
      separators dropped, in lower case. */
  lemma {:induction false} SplitCamelKeepsLetters(t: string, sep: char)
    requires !IsUpper(sep) && !IsLower(sep)
    ensures Remove(SplitCamel(t, sep), sep) == LowerAll(Remove(t, sep))
    decreases |t|
  {
    if t != [] {
      var init, last := t[..|t| - 1], t[|t| - 1];
      var mark := if |t| > 1 && IsUpper(last) && t[|t| - 2] != sep then [sep] else [];
      assert SplitCamel(t, sep) == SplitCamel(init, sep) + mark + [Lower(last)];
      SplitCamelKeepsLetters(init, sep);
      KeepsLettersStep(init, last, mark, SplitCamel(init, sep), sep);
      assert t == init + [last];
    }
  }

  /** One step of SplitCamelKeepsLetters: appending an optional separator and a lower-cased
      character keeps the letters. */
  lemma KeepsLettersStep(init: string, last: char, mark: string, before: string, sep: char)
    requires !IsUpper(sep) && !IsLower(sep)
    requires mark == [] || mark == [sep]
    requires Remove(before, sep) == LowerAll(Remove(init, sep))
    ensures Remove(before + mark + [Lower(last)], sep) == LowerAll(Remove(init + [last], sep))
  {
    assert Remove(mark, sep) == [] by {
      if mark != [] { RemoveSingle(sep, sep); }
    }
    calc {
      Remove(before + mark + [Lower(last)], sep);
      { RemoveAppend(before + mark, [Lower(last)], sep); }
      Remove(before + mark, sep) + Remove([Lower(last)], sep);
      { RemoveAppend(before, mark, sep); RemoveSingle(last, sep); }
      LowerAll(Remove(init, sep)) + LowerAll(Remove([last], sep));
      { LowerAllAppend(Remove(init, sep), Remove([last], sep)); }
      LowerAll(Remove(init, sep) + Remove([last], sep));
      { RemoveAppend(init, [last], sep); }
      LowerAll(Remove(init + [last], sep));
    }
  }

  /** Dropping sep from one character, before or after lower-casing it. */
  lemma RemoveSingle(c: char, sep: char)
    requires !IsUpper(sep) && !IsLower(sep)
    ensures Remove([c], sep) == if c == sep then [] else [c]
    ensures Remove([Lower(c)], sep) == LowerAll(Remove([c], sep))
  {
    assert Remove([c], sep) == (if c == sep then [] else [c]) + Remove([], sep);
    assert Remove([Lower(c)], sep) == (if Lower(c) == sep then [] else [Lower(c)]) + Remove([], sep);
  }

  lemma LowerAllAppend(a: string, b: string)
    ensures LowerAll(a + b) == LowerAll(a) + LowerAll(b)
  {
  }

  /** Joining words with c and dropping c is concatenating them and dropping c. */
  lemma {:induction false} RemoveJoin(ws: seq<string>, c: char)
    ensures Remove(Join(ws, [c]), c) == Remove(Concat(ws), c)
    decreases |ws|
  {
    if |ws| > 1 {
      RemoveJoin(ws[1..], c);
      RemoveAppend(ws[0] + [c], Join(ws[1..], [c]), c);
      RemoveAppend(ws[0], [c], c);
      RemoveAppend(ws[0], Concat(ws[1..]), c);
      assert Remove([c], c) == [] + Remove([], c);
    } else if |ws| == 1 {
      assert ws[1..] == [];
      assert Concat(ws) == ws[0] + Concat([]) == ws[0];
      assert Join(ws, [c]) == ws[0];
    }
  }

  /** What the snake and kebab rewritings keep: no white space and no upper-case letter remain,
      and dropping the separator character from the result gives the input's non-space
      characters, without that character, in lower case. */
  lemma Separated(s: string, r: string, sep: char)
    requires sep == '_' || sep == '-'
    requires r == SplitCamel(Join(Fields(s), [sep]), sep)
    ensures NoUpper(r) && NoSpace(r)
    ensures Remove(r, sep) == LowerAll(Remove(RemoveSpaces(s), sep))
  {
    var ws := Fields(s);
    var joined := Join(ws, [sep]);
    JoinNoSpace(ws, [sep]);
    SplitCamelNoSpace(joined, sep);
    SplitCamelKeepsLetters(joined, sep);
    RemoveJoin(ws, sep);
    FieldsConcat(s);
  }

  lemma {:induction false} JoinNoSpace(ws: seq<string>, sep: string)
    requires NoSpace(sep) && forall i :: 0 <= i < |ws| ==> NoSpace(ws[i])
    ensures NoSpace(Join(ws, sep))
    decreases |ws|
  {
    if |ws| > 1 { JoinNoSpace(ws[1..], sep); }
  }

  /** Snake and kebab case are idempotent: rewriting a result again changes nothing. */
  lemma SeparatedIdempotent(s: string, sep: char)
    requires sep == '_' || sep == '-'
    ensures var r := SplitCamel(Join(Fields(s), [sep]), sep);
      SplitCamel(Join(Fields(r), [sep]), sep) == r
  {
    var r := SplitCamel(Join(Fields(s), [sep]), sep);
    Separated(s, r, sep);
    FieldsFromNoSpace(r, []);
    assert [] + r == r;
    if r != [] {
      assert Join(Fields(r), [sep]) == r;
    }
  }

  lemma ConcatSnoc(ws: seq<string>, w: string)
    ensures Concat(ws + [w]) == Concat(ws) + w
    decreases |ws|
  {
    if ws != [] {
      assert (ws + [w])[1..] == ws[1..] + [w];
      ConcatSnoc(ws[1..], w);
    }
  }

  /** camelCase of the lower-cased words: the first as it is, the rest title-cased. Only letter
      case differs from the plain concatenation, and the first word leads unchanged. */
  function CamelOf(words: seq<string>): (r: string)
    ensures LowerAll(r) == LowerAll(Concat(words))
    ensures words != [] ==> |words[0]| <= |r| && r[..|words[0]|] == words[0]
  {
    if words == [] then ""
    else
      var tail := Concat(TitleAll(words[1..]));
      LowerConcatTitles(words[1..]);
      LowerAllAppend(words[0], tail);
      LowerAllAppend(words[0], Concat(words[1..]));
      words[0] + tail
  }

  /** ToCamelCase: the lower-cased input's words, joined camel-style. */
  method ToCamelCase(s: string) returns (r: string)
    ensures r == CamelOf(Fields(LowerAll(s)))
  {
    var words := Fields(LowerAll(s));
    r := JoinCamel(words);
  }

  /** The loop of ToCamelCase, accumulating the result word by word. */
  method JoinCamel(words: seq<string>) returns (r: string)
    ensures r == CamelOf(words)
  {
    if |words| == 0 {
      return "";
    }
    var first, rest := words[0], words[1..];
    r := first;
    assert TitleAll(rest[..0]) == [];
    for k := 0 to |rest|
      invariant r == first + Concat(TitleAll(rest[..k]))
    {
      ConcatTitlesSnoc(first, rest, k, r);
      r := r + Title(rest[k]);
    }
    CamelOfSplit(words, first, rest, r);
  }

  /** One more title-cased word appended to the camel-case prefix. */
  lemma ConcatTitlesSnoc(first: string, ws: seq<string>, k: nat, r: string)
    requires k < |ws| && r == first + Concat(TitleAll(ws[..k]))
    ensures r + Title(ws[k]) == first + Concat(TitleAll(ws[..k + 1]))
  {
    assert TitleAll(ws[..k + 1]) == TitleAll(ws[..k]) + [Title(ws[k])];
    ConcatSnoc(TitleAll(ws[..k]), Title(ws[k]));
  }

  lemma CamelOfSplit(words: seq<string>, first: string, rest: seq<string>, r: string)
    requires words != [] && first == words[0] && rest == words[1..]
    requires r == first + Concat(TitleAll(rest[..|rest|]))
    ensures r == CamelOf(words)
  {
    assert rest[..|rest|] == rest;
  }

  /** ToPascalCase, title-casing the words in place and joining them. */
  method ToPascalCase(s: string) returns (r: string)
    ensures r == Concat(TitleAll(Fields(LowerAll(s))))
  {
    var fields := Fields(LowerAll(s));
    if |fields| == 0 {
      assert TitleAll(fields) == [];
      return "";
    }
    var words := new string[|fields|](i => if 0 <= i < |fields| then fields[i] else "");
    assert words[..] == TitleAll(fields[..0]) + fields[0..];
    for i := 0 to words.Length
      invariant words.Length == |fields|
      invariant words[..] == TitleAll(fields[..i]) + fields[i..]
    {
      TitleInPlace(fields, i);
      words[i] := Title(words[i]);
    }
    assert words[..] == TitleAll(fields) by {
      assert fields[..|fields|] == fields;
      assert fields[|fields|..] == [];
    }
    r := Concat(words[..]);
  }

  /** Title-casing word i of a list whose words before i are already title-cased. */
  lemma TitleInPlace(fields: seq<string>, i: nat)
    requires i < |fields|
    ensures (TitleAll(fields[..i]) + fields[i..])[i := Title(fields[i])] == TitleAll(fields[..i + 1]) + fields[i + 1..]
  {
  }

  lemma LowerAllIdempotent(s: string)
    ensures LowerAll(LowerAll(s)) == LowerAll(s)
  {
  }

  lemma {:induction false} RemoveSpacesLower(s: string)
    ensures RemoveSpaces(LowerAll(s)) == LowerAll(RemoveSpaces(s))
    decreases |s|
  {
    if s != [] {
      assert LowerAll(s)[1..] == LowerAll(s[1..]);
      RemoveSpacesLower(s[1..]);
    }
  }

  lemma {:induction false} AllSpaceLower(s: string)
    ensures AllSpace(LowerAll(s)) <==> AllSpace(s)
  {
    assert forall i :: 0 <= i < |s| ==> (IsSpace(LowerAll(s)[i]) <==> IsSpace(s[i]));
  }

  /** Title-casing every word and concatenating, then lower-casing, is lower-casing the plain
      concatenation. */
  lemma {:induction false} LowerConcatTitles(ws: seq<string>)
    ensures LowerAll(Concat(TitleAll(ws))) == LowerAll(Concat(ws))
    decreases |ws|
  {
    if ws != [] {
      assert TitleAll(ws)[1..] == TitleAll(ws[1..]);
      LowerConcatTitles(ws[1..]);
      TitleKeepsLetters(ws[0]);
      LowerAllAppend(Title(ws[0]), Concat(TitleAll(ws[1..])));
      LowerAllAppend(ws[0], Concat(ws[1..]));
    }
  }

  lemma {:induction false} ConcatNonEmpty(ws: seq<string>)
    requires ws != [] && ws[0] != []
    ensures Concat(ws) != [] && Concat(ws)[0] == ws[0][0]
  {
  }

  /** The words of the lower-cased input: none exactly when the input is all white space,
      together the input's non-space characters lower-cased, the first already in lower case. */
  lemma LowerWords(s: string)
    ensures var ws := Fields(LowerAll(s));
      (ws == [] <==> AllSpace(s)) &&
      Concat(ws) == LowerAll(RemoveSpaces(s)) &&
      (ws != [] ==> ws[0] == LowerAll(ws[0]))
  {
    var low := LowerAll(s);
    AllSpaceLower(s);
    FieldsConcat(low);
    RemoveSpacesLower(s);
    if Fields(low) != [] {
      WordOfLower(low, Fields(low));
    }
  }

  /** camelCase only drops white space and changes letter case: it is empty exactly when the
      input is all white space, lower-cased it is the input's non-space characters lower-cased,
      and it starts with the first of them in lower case. */
  lemma CamelCaseShape(s: string)
    ensures var camel := CamelOf(Fields(LowerAll(s)));
      (camel == "" <==> AllSpace(s)) &&
      LowerAll(camel) == LowerAll(RemoveSpaces(s)) &&
      (camel != "" ==> camel[0] == Lower(RemoveSpaces(s)[0]))
  {
    var ws := Fields(LowerAll(s));
    LowerWords(s);
    LowerAllIdempotent(RemoveSpaces(s));
    if ws != [] {
      assert Concat(ws) == ws[0] + Concat(ws[1..]);
      assert Concat(ws)[0] == ws[0][0];
    }
  }

  /** PascalCase only drops white space and changes letter case: it is empty exactly when the
      input is all white space, lower-cased it is the input's non-space characters lower-cased,
      and it starts with the first of them in upper case. */
  lemma PascalCaseShape(s: string)
    ensures var pascal := Concat(TitleAll(Fields(LowerAll(s))));
      (pascal == "" <==> AllSpace(s)) &&
      LowerAll(pascal) == LowerAll(RemoveSpaces(s)) &&
      (pascal != "" ==> pascal[0] == Upper(Lower(RemoveSpaces(s)[0])))
  {
    var ws := Fields(LowerAll(s));
    LowerWords(s);
    LowerAllIdempotent(RemoveSpaces(s));
    LowerConcatTitles(ws);
    if ws != [] {
      ConcatNonEmpty(TitleAll(ws));
      ConcatNonEmpty(ws);
    }
  }

  lemma WordOfLower(low: string, ws: seq<string>)
    requires ws == Fields(low) && NoUpper(low) && ws != []
    ensures ws[0] == LowerAll(ws[0])
  {
    FieldsConcat(low);
    RemoveSpacesNoUpper(low);
    assert Concat(ws) == ws[0] + Concat(ws[1..]);
    assert forall i :: 0 <= i < |ws[0]| ==> ws[0][i] == Concat(ws)[i];
  }

  lemma {:induction false} RemoveSpacesNoUpper(s: string)
    requires NoUpper(s)
    ensures NoUpper(RemoveSpaces(s))
    decreases |s|
  {
    if s != [] { RemoveSpacesNoUpper(s[1..]); }
  }
}
