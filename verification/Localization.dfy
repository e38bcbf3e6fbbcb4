/** Translations: the catalog validator of scripts/generate-localizations.py and the
    message engine of src/i18n/engine.ts that reads what it accepted. */
module Localization {
  import opened Prelude
  import opened Text

  // ----- templates ------------------------------------------------------

  predicate Letter(c: char) {
    'a' <= c <= 'z' || 'A' <= c <= 'Z'
  }

  predicate NameChar(c: char) {
    Letter(c) || IsDigit(c) || c == '_'
  }

  /** How many name characters the text starts with. */
  function RunLen(s: string): (n: nat)
    ensures n <= |s| && (forall i :: 0 <= i < n ==> NameChar(s[i])) && (n < |s| ==> !NameChar(s[n]))
  {
    if s == [] || !NameChar(s[0]) then 0 else 1 + RunLen(s[1..])
  }

  predicate PlaceholderName(name: string) {
    name != [] && Letter(name[0]) && forall i :: 0 <= i < |name| ==> NameChar(name[i])
  }

  /** The placeholder the text starts with: a brace, a name, a brace. */
  function HoleAt(s: string): (r: Option<string>)
    ensures r.Some? ==> PlaceholderName(r.value) && |r.value| + 2 <= |s|
                        && s[0] == '{' && s[1..1 + |r.value|] == r.value
                        && s[1 + |r.value|] == '}'
  {
    if s == [] || s[0] != '{' then None
    else
      var n := RunLen(s[1..]);
      assert forall i :: 0 <= i < n ==> s[1..1 + n][i] == s[1..][i];
      if n >= 1 && Letter(s[1]) && 1 + n < |s| && s[1 + n] == '}' then Some(s[1..1 + n]) else None
  }

  datatype Token = Lit(c: char) | Hole(name: string)

  /** The single left-to-right pass of the placeholder pattern over a template. */
  function Tokens(s: string): seq<Token>
    decreases |s|
  {
    if s == [] then []
    else
      var hole := HoleAt(s);
      if hole.Some? then [Hole(hole.value)] + Tokens(s[|hole.value| + 2..])
      else [Lit(s[0])] + Tokens(s[1..])
  }

  function SpellOne(t: Token): string {
    match t case Lit(c) => [c] case Hole(name) => "{" + name + "}"
  }

  function Spell(ts: seq<Token>): string {
    if ts == [] then "" else SpellOne(ts[0]) + Spell(ts[1..])
  }

  /** The names the pattern finds in a template. */
  function Names(s: string): set<string> {
    set t | t in Tokens(s) && t.Hole? :: t.name
  }

  function Value(t: Token, args: map<string, string>): string {
    match t
    case Lit(c) => [c]
    case Hole(name) => if name in args then args[name] else "{" + name + "}"
  }

  /** Each literal stays, each placeholder becomes its argument's text. */
  function Render(ts: seq<Token>, args: map<string, string>): string {
    if ts == [] then "" else Value(ts[0], args) + Render(ts[1..], args)
  }

  lemma HoleParts(s: string)
    requires HoleAt(s).Some?
    ensures s == "{" + HoleAt(s).value + "}" + s[|HoleAt(s).value| + 2..]
  {
  }

  /** Tokenizing loses nothing. */
  lemma {:induction false} SpellTokens(s: string)
    ensures Spell(Tokens(s)) == s
    decreases |s|
  {
    hide HoleAt;
    if s != [] {
      var hole := HoleAt(s);
      var ts := Tokens(s);
      if hole.Some? {
        var rest := s[|hole.value| + 2..];
        SpellTokens(rest);
        assert ts[1..] == Tokens(rest);
        HoleParts(s);
      } else {
        SpellTokens(s[1..]);
        assert ts[1..] == Tokens(s[1..]);
      }
    }
  }

  /** No placeholder starts at a literal, and every hole's name is a name. */
  ghost predicate Leftmost(ts: seq<Token>)
    decreases |ts|
  {
    ts == [] ||
    ((ts[0].Lit? ==> HoleAt(Spell(ts)).None?) && (ts[0].Hole? ==> PlaceholderName(ts[0].name)) && Leftmost(ts[1..]))
  }

  lemma HoleSpelled(name: string, rest: string)
    requires PlaceholderName(name)
    ensures HoleAt("{" + name + "}" + rest) == Some(name)
  {
    var s := "{" + name + "}" + rest;
    assert s[1..] == name + "}" + rest;
    RunOfName(name, rest);
    assert s[1..1 + |name|] == name;
  }

  lemma {:induction false} RunOfName(name: string, rest: string)
    requires forall i :: 0 <= i < |name| ==> NameChar(name[i])
    ensures RunLen(name + "}" + rest) == |name|
    decreases |name|
  {
    var s := name + "}" + rest;
    if name != [] {
      assert s[1..] == name[1..] + "}" + rest;
      RunOfName(name[1..], rest);
    }
  }

  lemma {:induction false} TokensLeftmost(s: string)
    ensures Leftmost(Tokens(s))
    decreases |s|
  {
    hide HoleAt;
    if s != [] {
      SpellTokens(s);
      var hole, ts := HoleAt(s), Tokens(s);
      if hole.Some? {
        assert ts[1..] == Tokens(s[|hole.value| + 2..]);
        TokensLeftmost(s[|hole.value| + 2..]);
      } else {
        assert ts[1..] == Tokens(s[1..]);
        TokensLeftmost(s[1..]);
      }
    }
  }

  /** The pass finds the one leftmost reading of the template. */
  lemma {:induction false} TokensUnique(ts: seq<Token>)
    requires Leftmost(ts)
    ensures Tokens(Spell(ts)) == ts
    decreases |ts|
  {
    hide HoleAt;
    if ts != [] {
      var s, rest := Spell(ts), Spell(ts[1..]);
      TokensUnique(ts[1..]);
      if ts[0].Hole? {
        HoleSpelled(ts[0].name, rest);
        assert s[|ts[0].name| + 2..] == rest;
      } else {
        assert s[1..] == rest && s[0] == ts[0].c;
      }
      assert [ts[0]] + ts[1..] == ts;
    }
  }

  lemma {:induction false} RenderSplit(a: seq<Token>, b: seq<Token>, args: map<string, string>)
    ensures Render(a + b, args) == Render(a, args) + Render(b, args)
    decreases |a|
  {
    hide Value;
    if a == [] {
      assert a + b == b;
    } else {
      assert (a + b)[1..] == a[1..] + b;
      RenderSplit(a[1..], b, args);
    }
  }

  /** A value goes into the output as it is, whatever it holds: what surrounds it is
      rendered from the template alone. */
  lemma ValueVerbatim(a: seq<Token>, name: string, b: seq<Token>, args: map<string, string>)
    requires name in args
    ensures Render(a + [Hole(name)] + b, args) == Render(a, args) + args[name] + Render(b, args)
  {
    hide Render;
    RenderSplit(a + [Hole(name)], b, args);
    RenderSplit(a, [Hole(name)], args);
    RenderHole(name, args);
  }

  lemma RenderHole(name: string, args: map<string, string>)
    requires name in args
    ensures Render([Hole(name)], args) == args[name]
  {
    assert [Hole(name)][1..] == [];
    assert Render([], args) == "";
  }

  // ----- catalogs -------------------------------------------------------

  const CATEGORIES: set<string> := {"zero", "one", "two", "few", "many", "other"}

  datatype Range = Range(low: real, high: real)
  datatype Children = Absent | Listed(list: seq<Condition>)
  datatype Condition = Condition(all: Children, any: Children, integer: Option<bool>,
                                 mod: Option<int>, range: Option<Range>, notRange: Option<Range>)
  datatype Rule = Rule(category: string, when_: Condition)
  datatype Form = Form(category: string, text: string)
  datatype Message = Single(text: string) | Plural(forms: seq<Form>)
  datatype Entry = Entry(key: string, message: Message)

  /** A catalog file after JSON reading; absent optional fields are `None`. */
  datatype Raw = Raw(name: string, direction: Option<string>, rules: Option<seq<Rule>>, messages: seq<Entry>)
  datatype Catalog = Catalog(name: string, direction: string, rules: seq<Rule>, messages: seq<Entry>)
  datatype File = File(tag: string, data: Raw)

  function FormOf(forms: seq<Form>, category: string): (r: Option<string>)
    ensures r.Some? ==> Form(category, r.value) in forms
    ensures r.None? ==> forall f :: f in forms ==> f.category != category
  {
    if forms == [] then None
    else if forms[0].category == category then Some(forms[0].text)
    else FormOf(forms[1..], category)
  }

  function Lookup(messages: seq<Entry>, key: string): (r: Option<Message>)
    ensures r.Some? ==> Entry(key, r.value) in messages
    ensures r.None? ==> forall e :: e in messages ==> e.key != key
  {
    if messages == [] then None
    else if messages[0].key == key then Some(messages[0].message)
    else Lookup(messages[1..], key)
  }

  // ----- the validator --------------------------------------------------

  /** A plural condition the generator takes. */
  predicate ConditionOk(c: Condition)
    decreases c
  {
    && (c.all.Listed? || c.any.Listed? || c.integer.Some? || c.mod.Some? || c.range.Some? || c.notRange.Some?)
    && (c.all.Listed? ==> c.all.list != [] && forall k :: 0 <= k < |c.all.list| ==> ConditionOk(c.all.list[k]))
    && (c.any.Listed? ==> c.any.list != [] && forall k :: 0 <= k < |c.any.list| ==> ConditionOk(c.any.list[k]))
    && (c.mod.Some? ==> c.mod.value > 0)
    && (c.range.Some? ==> c.range.value.low <= c.range.value.high)
    && (c.notRange.Some? ==> c.notRange.value.low <= c.notRange.value.high)
  }

  method ValidateCondition(c: Condition) returns (ok: bool)
    ensures ok == ConditionOk(c)
    decreases c
  {
    if c.all.Absent? && c.any.Absent? && c.integer.None? && c.mod.None? && c.range.None? && c.notRange.None? {
      return false;
    }
    if c.all.Listed? {
      var children := c.all.list;
      if |children| == 0 { return false; }
      for k := 0 to |children|
        invariant forall j :: 0 <= j < k ==> ConditionOk(children[j])
      {
        var child := ValidateCondition(children[k]);
        if !child { return false; }
      }
    }
    if c.any.Listed? {
      var children := c.any.list;
      if |children| == 0 { return false; }
      for k := 0 to |children|
        invariant forall j :: 0 <= j < k ==> ConditionOk(children[j])
      {
        var child := ValidateCondition(children[k]);
        if !child { return false; }
      }
    }
    if c.mod.Some? && c.mod.value <= 0 { return false; }
    if c.range.Some? && c.range.value.low > c.range.value.high { return false; }
    if c.notRange.Some? && c.notRange.value.low > c.notRange.value.high { return false; }
    return true;
  }

  function Texts(forms: seq<Form>): (r: seq<string>)
    ensures |r| == |forms| && forall i :: 0 <= i < |r| ==> r[i] == forms[i].text
  {
    seq(|forms|, i requires 0 <= i < |forms| => forms[i].text)
  }

  /** The texts of a message, or `None` when it is malformed. */
  function Variants(m: Message): (r: Option<seq<string>>)
    ensures r.Some? ==> r.value != []
  {
    match m
    case Single(text) => if text == "" then None else Some([text])
    case Plural(forms) =>
      if FormOf(forms, "other").Some?
         && forall i :: 0 <= i < |forms| ==> forms[i].category in CATEGORIES && forms[i].text != ""
      then Some(Texts(forms)) else None
  }

  predicate TagOk(tag: string) {
    var parts := Split(tag, '-');
    2 <= |parts[0]| <= 3 && (forall c :: c in parts[0] ==> 'a' <= c <= 'z')
    && forall i :: 1 <= i < |parts| ==> 2 <= |parts[i]| <= 8 && forall c :: c in parts[i] ==> Letter(c) || IsDigit(c)
  }

  ghost predicate RulesOk(rules: seq<Rule>) {
    && (forall i, j :: 0 <= i < j < |rules| ==> rules[i].category != rules[j].category)
    && forall i :: 0 <= i < |rules| ==>
         rules[i].category in CATEGORIES && rules[i].category != "other" && ConditionOk(rules[i].when_)
  }

  ghost predicate UniqueKeys(messages: seq<Entry>) {
    forall i, j :: 0 <= i < j < |messages| ==> messages[i].key != messages[j].key
  }

  ghost predicate UniqueForms(forms: seq<Form>) {
    forall i, j :: 0 <= i < j < |forms| ==> forms[i].category != forms[j].category
  }

  /** What reading JSON demands: no object repeats a key. */
  ghost predicate KeysOnce(messages: seq<Entry>) {
    UniqueKeys(messages)
    && forall i :: 0 <= i < |messages| && messages[i].message.Plural? ==> UniqueForms(messages[i].message.forms)
  }

  ghost predicate FileOk(f: File) {
    TagOk(f.tag) && f.data.name != "" && (f.data.direction.None? || f.data.direction.value in {"ltr", "rtl"})
    && RulesOk(f.data.rules.GetOr([])) && KeysOnce(f.data.messages)
  }

  function Finished(raw: Raw): Catalog {
    Catalog(raw.name, raw.direction.GetOr("ltr"), raw.rules.GetOr([]), raw.messages)
  }

  /** A message fits its English counterpart: well-formed, the same placeholders in every
      text, and a count to choose plural forms by. */
  predicate MessageFits(m: Message, base: Message) {
    Variants(base).Some? && Variants(m).Some? &&
    var expected := Names(Variants(base).value[0]);
    (forall k :: 0 <= k < |Variants(m).value| ==> Names(Variants(m).value[k]) == expected)
    && (m.Plural? ==> "count" in expected)
  }

  ghost predicate EntriesFit(messages: seq<Entry>, base: seq<Entry>) {
    forall i :: 0 <= i < |messages| ==>
      Lookup(base, messages[i].key).Some? && MessageFits(messages[i].message, Lookup(base, messages[i].key).value)
  }

  function English(files: seq<File>): Option<Raw> {
    if files == [] then None else if files[0].tag == "en" then Some(files[0].data) else English(files[1..])
  }

  /** What the generator demands of the whole directory. */
  ghost predicate Acceptable(files: seq<File>) {
    && (forall i :: 0 <= i < |files| ==> FileOk(files[i]))
    && English(files).Some?
    && forall i :: 0 <= i < |files| ==> EntriesFit(files[i].data.messages, English(files).value.messages)
  }

  function Loaded(files: seq<File>): map<string, Catalog> {
    if files == [] then map[]
    else Loaded(files[..|files| - 1])[files[|files| - 1].tag := Finished(files[|files| - 1].data)]
  }

  method ValidateFile(f: File) returns (ok: bool)
    ensures ok == FileOk(f)
  {
    hide TagOk, ConditionOk;
    if !TagOk(f.tag) || f.data.name == "" { return false; }
    if f.data.direction.Some? && f.data.direction.value !in {"ltr", "rtl"} { return false; }
    var rules := f.data.rules.GetOr([]);
    var seen: set<string> := {};
    for k := 0 to |rules|
      invariant seen == set i | 0 <= i < k :: rules[i].category
      invariant forall i, j :: 0 <= i < j < k ==> rules[i].category != rules[j].category
      invariant forall i :: 0 <= i < k ==>
                  rules[i].category in CATEGORIES && rules[i].category != "other" && ConditionOk(rules[i].when_)
    {
      if rules[k].category !in CATEGORIES - {"other"} || rules[k].category in seen { return false; }
      seen := seen + {rules[k].category};
      var valid := ValidateCondition(rules[k].when_);
      if !valid { return false; }
    }
    ok := ValidateKeys(f.data.messages);
  }

  method ValidateForms(forms: seq<Form>) returns (ok: bool)
    ensures ok == UniqueForms(forms)
  {
    var seen: set<string> := {};
    for k := 0 to |forms|
      invariant seen == set i | 0 <= i < k :: forms[i].category
      invariant forall i, j :: 0 <= i < j < k ==> forms[i].category != forms[j].category
    {
      if forms[k].category in seen { return false; }
      seen := seen + {forms[k].category};
    }
    return true;
  }

  /** JSON reading refuses a repeated key. */
  method ValidateKeys(messages: seq<Entry>) returns (ok: bool)
    ensures ok == KeysOnce(messages)
  {
    hide UniqueForms;
    var seen: set<string> := {};
    for k := 0 to |messages|
      invariant seen == set i | 0 <= i < k :: messages[i].key
      invariant forall i, j :: 0 <= i < j < k ==> messages[i].key != messages[j].key
      invariant forall i :: 0 <= i < k && messages[i].message.Plural? ==> UniqueForms(messages[i].message.forms)
    {
      if messages[k].key in seen { return false; }
      seen := seen + {messages[k].key};
      if messages[k].message.Plural? {
        var once := ValidateForms(messages[k].message.forms);
        if !once { return false; }
      }
    }
    return true;
  }

  method ValidateEntries(messages: seq<Entry>, base: seq<Entry>) returns (ok: bool)
    ensures ok == EntriesFit(messages, base)
  {
    hide MessageFits;
    for k := 0 to |messages|
      invariant forall i :: 0 <= i < k ==>
                  Lookup(base, messages[i].key).Some?
                  && MessageFits(messages[i].message, Lookup(base, messages[i].key).value)
    {
      var english := Lookup(base, messages[k].key);
      if english.None? || !MessageFits(messages[k].message, english.value) { return false; }
    }
    return true;
  }

  method LoadCatalogs(files: seq<File>) returns (r: Option<map<string, Catalog>>)
    ensures r == if Acceptable(files) then Some(Loaded(files)) else None
  {
    hide FileOk, EntriesFit, Finished;
    var catalogs: map<string, Catalog> := map[];
    for k := 0 to |files|
      invariant forall i :: 0 <= i < k ==> FileOk(files[i])
      invariant catalogs == Loaded(files[..k])
    {
      assert files[..k + 1][..k] == files[..k];
      var ok := ValidateFile(files[k]);
      if !ok { return None; }
      catalogs := catalogs[files[k].tag := Finished(files[k].data)];
    }
    assert files[..|files|] == files;
    var english := English(files);
    if english.None? { return None; }
    for k := 0 to |files|
      invariant forall i :: 0 <= i < k ==> EntriesFit(files[i].data.messages, english.value.messages)
    {
      var ok := ValidateEntries(files[k].data.messages, english.value.messages);
      if !ok { return None; }
    }
    r := Some(catalogs);
  }

  // ----- the engine -----------------------------------------------------

  /** JavaScript's remainder of a non-negative number. */
  function Remainder(x: real, m: int): real
    requires m != 0
  {
    var d := (if m < 0 then -m else m) as real;
    x - d * (x / d).Floor as real
  }

  predicate Matches(c: Condition, number: real)
    decreases c
  {
    && (c.all.Listed? ==> forall k :: 0 <= k < |c.all.list| ==> Matches(c.all.list[k], number))
    && (c.any.Listed? ==> exists k :: 0 <= k < |c.any.list| && Matches(c.any.list[k], number))
    && (c.integer.Some? ==> (number.Floor as real == number) == c.integer.value)
    && var value := if c.mod.Some? && c.mod.value != 0 then Remainder(number, c.mod.value) else number;
       (c.range.Some? ==> c.range.value.low <= value <= c.range.value.high)
       && !(c.notRange.Some? && c.notRange.value.low <= value <= c.notRange.value.high)
  }

  function CategoryOf(rules: seq<Rule>, count: real): string {
    if rules == [] then "other"
    else if Matches(rules[0].when_, count) then rules[0].category
    else CategoryOf(rules[1..], count)
  }

  /** An argument: the text it prints as, and its absolute value when it is a finite number. */
  datatype Argument = Argument(text: string, magnitude: Option<real>)

  function TextsOf(args: map<string, Argument>): map<string, string> {
    map name | name in args :: args[name].text
  }

  function MessageOf(catalogs: map<string, Catalog>, language: string, key: string): Option<Message> {
    if language in catalogs then Lookup(catalogs[language].messages, key) else None
  }

  /** The template a call renders; `None` would be a missing one. */
  function Template(catalogs: map<string, Catalog>, language: string, key: string, args: map<string, Argument>)
    : Option<string>
  {
    var translated := MessageOf(catalogs, language, key);
    var message := if translated.Some? then translated else MessageOf(catalogs, "en", key);
    var tag := if translated.Some? then language else "en";
    var count := if "count" in args then args["count"].magnitude else None;
    var category := if tag in catalogs && count.Some? then CategoryOf(catalogs[tag].rules, count.value) else "other";
    match message
    case None => Some(key)
    case Some(Single(text)) => Some(text)
    case Some(Plural(forms)) =>
      var chosen := FormOf(forms, category);
      if chosen.Some? then chosen else FormOf(forms, "other")
  }

  function TranslateMessage(catalogs: map<string, Catalog>, language: string, key: string, args: map<string, Argument>)
    : Option<string>
  {
    var template := Template(catalogs, language, key, args);
    if template.None? then None else Some(Render(Tokens(template.value), TextsOf(args)))
  }

  // ----- what the generator demands -------------------------------------

  /** A letter, then letters, digits and underscores. */
  ghost predicate IsName(name: string) {
    name != "" && ('a' <= name[0] <= 'z' || 'A' <= name[0] <= 'Z')
    && forall i :: 0 <= i < |name| ==>
         'a' <= name[i] <= 'z' || 'A' <= name[i] <= 'Z' || '0' <= name[i] <= '9' || name[i] == '_'
  }

  /** A placeholder stands at the start of a text exactly when the text starts with a name in
      braces. */
  lemma HoleExactly(s: string, name: string)
    ensures HoleAt(s) == Some(name) <==> IsName(name) && "{" + name + "}" <= s
  {
    assert PlaceholderName(name) <==> IsName(name);
    if IsName(name) && "{" + name + "}" <= s {
      assert s == "{" + name + "}" + s[|name| + 2..];
      HoleSpelled(name, s[|name| + 2..]);
    }
    if HoleAt(s) == Some(name) { HoleParts(s); }
  }

  ghost predicate PluralCategory(c: string) {
    c == "zero" || c == "one" || c == "two" || c == "few" || c == "many" || c == "other"
  }

  /** A language of two or three small letters and subtags of two to eight letters or digits. */
  ghost predicate TagParts(parts: seq<string>) {
    parts != [] && 2 <= |parts[0]| <= 3 && (forall k :: 0 <= k < |parts[0]| ==> 'a' <= parts[0][k] <= 'z')
    && forall i :: 1 <= i < |parts| ==> SubtagOk(parts[i])
  }

  ghost predicate SubtagOk(part: string) {
    2 <= |part| <= 8 && forall k :: 0 <= k < |part| ==>
      'a' <= part[k] <= 'z' || 'A' <= part[k] <= 'Z' || '0' <= part[k] <= '9'
  }

  lemma OwnParts(tag: string)
    ensures TagOk(tag) <==> TagParts(Split(tag, '-'))
  {
    hide Split;
    var own := Split(tag, '-');
    forall i | 1 <= i < |own|
      ensures SubtagOk(own[i]) <==> 2 <= |own[i]| <= 8 && forall c :: c in own[i] ==> Letter(c) || IsDigit(c)
    {
      assert forall k :: 0 <= k < |own[i]| ==> own[i][k] in own[i];
    }
    assert forall k :: 0 <= k < |own[0]| ==> own[0][k] in own[0];
    hide SubtagOk;
  }

  lemma TagExactly(tag: string)
    ensures TagOk(tag) <==> exists parts :: TagParts(parts) && tag == Join(parts, '-')
  {
    var own := Split(tag, '-');
    OwnParts(tag);
    JoinSplit(tag, '-');
    forall parts | TagParts(parts) && tag == Join(parts, '-') ensures parts == own {
      hide Split, Join;
      forall p | p in parts ensures '-' !in p {
        var i :| 0 <= i < |parts| && parts[i] == p;
        assert i == 0 || SubtagOk(parts[i]);
      }
      SplitJoin(parts, '-');
    }
  }

  ghost predicate TextIn(m: Message, text: string) {
    if m.Single? then text == m.text else exists i :: 0 <= i < |m.forms| && m.forms[i].text == text
  }

  /** A message is a nonempty text, or nonempty forms of the six categories with the fallback
      among them. */
  ghost predicate WellFormed(m: Message) {
    if m.Single? then m.text != ""
    else (exists i :: 0 <= i < |m.forms| && m.forms[i].category == "other")
         && forall i :: 0 <= i < |m.forms| ==> PluralCategory(m.forms[i].category) && m.forms[i].text != ""
  }

  lemma VariantsExactly(m: Message)
    ensures Variants(m).Some? <==> WellFormed(m)
    ensures Variants(m).Some? ==> forall text :: text in Variants(m).value <==> TextIn(m, text)
  {
    if m.Plural? {
      var i := FormAt(m.forms, "other");
      if FormOf(m.forms, "other").None? {
        forall j | 0 <= j < |m.forms| ensures m.forms[j].category != "other" { assert m.forms[j] in m.forms; }
      }
      assert forall c :: c in CATEGORIES <==> PluralCategory(c);
    }
  }

  /** A message is accepted beside its English one exactly when both are well-formed, all its
      texts have the placeholders of the first English text, and a plural one counts. */
  lemma FitsExactly(m: Message, base: Message)
    ensures MessageFits(m, base) <==>
            WellFormed(m) && WellFormed(base) && Variants(base).Some?
            && (forall text :: TextIn(m, text) ==> Names(text) == Names(Variants(base).value[0]))
            && (m.Plural? ==> "count" in Names(Variants(base).value[0]))
  {
    hide Names, WellFormed, TextIn, Variants;
    VariantsExactly(m);
    VariantsExactly(base);
    if Variants(m).Some? {
      var texts := Variants(m).value;
      assert forall k :: 0 <= k < |texts| ==> texts[k] in texts;
    }
  }

  /** A file without a direction reads left to right, one without rules has no rule, and the
      rest is kept. */
  lemma FinishedExactly(raw: Raw)
    ensures Finished(raw).name == raw.name && Finished(raw).messages == raw.messages
    ensures raw.direction.None? ==> Finished(raw).direction == "ltr"
    ensures raw.direction.Some? ==> Finished(raw).direction == raw.direction.value
    ensures raw.rules.None? ==> Finished(raw).rules == []
    ensures raw.rules.Some? ==> Finished(raw).rules == raw.rules.value
  {
  }

  // ----- which template is chosen ---------------------------------------

  function Times(a: real, b: real): real {
    a * b
  }

  /** `x` is `q` times the size of `m` and `v` more. */
  ghost predicate Quotient(q: int, v: real, x: real, m: int) {
    x == Times(Size(m), q as real) + v
  }

  /** `v` is the remainder of `x` by `m`. */
  ghost predicate IsRemainder(v: real, x: real, m: int) {
    m != 0 && 0.0 <= v < Size(m) && exists q: int :: Quotient(q, v, x, m)
  }

  function Size(m: int): real {
    if m < 0 then (-m) as real else m as real
  }

  ghost predicate IsInt(k: int, x: real) {
    x == k as real
  }

  ghost predicate IsWhole(x: real) {
    exists k: int :: IsInt(k, x)
  }

  /** What a condition asks of the compared value. */
  ghost predicate WithinBounds(c: Condition, v: real) {
    (c.range.Some? ==> c.range.value.low <= v && v <= c.range.value.high)
    && (c.notRange.Some? ==> v < c.notRange.value.low || c.notRange.value.high < v)
  }

  /** The meaning of a plural condition: all parts, one of the alternatives, integrality, and
      the bounds, asked of the number or of its remainder. */
  ghost predicate Meets(c: Condition, x: real)
    decreases c
  {
    && (c.all.Listed? ==> !exists k :: 0 <= k < |c.all.list| && !Meets(c.all.list[k], x))
    && (c.any.Listed? ==> !forall k :: 0 <= k < |c.any.list| ==> !Meets(c.any.list[k], x))
    && (c.integer == Some(true) ==> IsWhole(x)) && (c.integer == Some(false) ==> !IsWhole(x))
    && if c.mod.Some? && c.mod.value != 0
       then exists v :: IsRemainder(v, x, c.mod.value) && WithinBounds(c, v)
       else WithinBounds(c, x)
  }

  lemma WholeIsFloor(x: real)
    ensures IsWhole(x) <==> x.Floor as real == x
  {
    if x.Floor as real == x { assert IsInt(x.Floor, x); }
  }

  lemma TimesGrows(s: real, a: real, b: real)
    requires s > 0.0
    ensures a <= b ==> Times(s, a) <= Times(s, b)
    ensures a < b ==> Times(s, a) < Times(s, b)
  {
  }

  lemma TimesNext(s: real, a: real)
    ensures Times(s, a + 1.0) == Times(s, a) + s
  {
  }

  lemma TimesInverse(s: real, x: real)
    requires s > 0.0
    ensures Times(s, x / s) == x
  {
  }

  lemma SameQuotient(q: int, r: int, s: real, w: real, v: real)
    requires s > 0.0 && 0.0 <= w < s && 0.0 <= v < s && Times(s, q as real) + w == Times(s, r as real) + v
    ensures q == r && w == v
  {
    hide Times;
    var a, b := q as real, r as real;
    TimesNext(s, a);
    TimesNext(s, b);
    TimesGrows(s, a + 1.0, b);
    TimesGrows(s, b + 1.0, a);
  }

  /** There is one remainder, and it is the engine's. */
  lemma RemainderExactly(v: real, x: real, m: int)
    requires m != 0
    ensures IsRemainder(v, x, m) <==> v == Remainder(x, m)
  {
    var s := Size(m);
    var q := (x / s).Floor;
    var w := Remainder(x, m);
    assert w == x - Times(s, q as real);
    hide Times, Remainder;
    assert q as real <= x / s < q as real + 1.0;
    TimesInverse(s, x);
    TimesNext(s, q as real);
    TimesGrows(s, q as real, x / s);
    TimesGrows(s, x / s, q as real + 1.0);
    assert Quotient(q, w, x, m);
    if IsRemainder(v, x, m) {
      var r: int :| Quotient(r, v, x, m);
      SameQuotient(q, r, s, w, v);
    }
  }

  /** The engine accepts exactly what a condition means. */
  lemma {:induction false} MatchesExactly(c: Condition, x: real)
    ensures Matches(c, x) <==> Meets(c, x)
    decreases c
  {
    hide Remainder, IsRemainder, IsWhole;
    if c.all.Listed? {
      forall k | 0 <= k < |c.all.list| ensures Matches(c.all.list[k], x) <==> Meets(c.all.list[k], x) {
        MatchesExactly(c.all.list[k], x);
      }
    }
    if c.any.Listed? {
      forall k | 0 <= k < |c.any.list| ensures Matches(c.any.list[k], x) <==> Meets(c.any.list[k], x) {
        MatchesExactly(c.any.list[k], x);
      }
    }
    WholeIsFloor(x);
    if c.mod.Some? && c.mod.value != 0 {
      var w := Remainder(x, c.mod.value);
      forall v ensures IsRemainder(v, x, c.mod.value) <==> v == w { RemainderExactly(v, x, c.mod.value); }
      assert IsRemainder(w, x, c.mod.value);
      assert WithinBounds(c, w) <==> exists v :: IsRemainder(v, x, c.mod.value) && WithinBounds(c, v);
    }
  }

  /** Rule `k` is the first that the number meets. */
  ghost predicate FirstRule(rules: seq<Rule>, x: real, k: int) {
    0 <= k < |rules| && Meets(rules[k].when_, x) && forall j :: 0 <= j < k ==> !Meets(rules[j].when_, x)
  }

  /** The plural category of an optional number. */
  ghost predicate HasCategory(rules: seq<Rule>, count: Option<real>, category: string) {
    if count.Some? && exists k :: FirstRule(rules, count.value, k)
    then exists k :: FirstRule(rules, count.value, k) && category == rules[k].category
    else category == "other"
  }

  lemma {:induction false} CategoryExactly(rules: seq<Rule>, x: real)
    ensures HasCategory(rules, Some(x), CategoryOf(rules, x))
    decreases |rules|
  {
    hide Matches, Meets;
    if rules != [] {
      MatchesExactly(rules[0].when_, x);
      if Matches(rules[0].when_, x) {
        assert FirstRule(rules, x, 0);
      } else {
        CategoryExactly(rules[1..], x);
        forall k ensures FirstRule(rules, x, k) <==> FirstRule(rules[1..], x, k - 1) { LaterRule(rules, x, k); }
        if k :| FirstRule(rules[1..], x, k) { assert FirstRule(rules, x, k + 1); }
      }
    }
  }

  lemma LaterRule(rules: seq<Rule>, x: real, k: int)
    requires rules != [] && !Meets(rules[0].when_, x)
    ensures FirstRule(rules, x, k) <==> FirstRule(rules[1..], x, k - 1)
  {
    hide Meets;
    var rest := rules[1..];
    assert forall j :: 0 <= j < |rest| ==> rest[j] == rules[j + 1];
    if FirstRule(rules, x, k) {
      forall j | 0 <= j < k - 1 ensures !Meets(rest[j].when_, x) { assert rest[j] == rules[j + 1]; }
    }
    if FirstRule(rest, x, k - 1) {
      forall j | 0 <= j < k ensures !Meets(rules[j].when_, x) {
        if j > 0 { assert rules[j] == rest[j - 1]; }
      }
    }
  }

  /** The first entry under the key, if there is one. */
  ghost predicate FirstUnder(messages: seq<Entry>, key: string, i: int) {
    0 <= i < |messages| && messages[i].key == key && forall j :: 0 <= j < i ==> messages[j].key != key
  }

  ghost predicate HasKey(messages: seq<Entry>, key: string) {
    exists i :: 0 <= i < |messages| && messages[i].key == key
  }

  lemma {:induction false} LookupAt(messages: seq<Entry>, key: string) returns (i: nat)
    ensures HasKey(messages, key) <==> Lookup(messages, key).Some?
    ensures HasKey(messages, key) ==> FirstUnder(messages, key, i) && Lookup(messages, key).value == messages[i].message
    decreases |messages|
  {
    i := 0;
    if messages != [] && messages[0].key != key {
      i := LookupAt(messages[1..], key);
      assert forall j :: 1 <= j < |messages| ==> messages[j] == messages[1..][j - 1];
      i := i + 1;
    }
  }

  /** The catalog that serves the key: the language's own if it has the key, else the English
      one if it has it. */
  ghost predicate Serves(catalogs: map<string, Catalog>, language: string, key: string, tag: string) {
    tag in catalogs && HasKey(catalogs[tag].messages, key)
    && (tag == language || (tag == "en" && !(language in catalogs && HasKey(catalogs[language].messages, key))))
  }

  /** The text of a message for a category: its one text, or the category's form, or the
      fallback form. */
  ghost predicate TextOf(m: Message, category: string, text: Option<string>) {
    if m.Single? then text == Some(m.text)
    else if exists i :: FirstForm(m.forms, category, i) then FormText(m.forms, category, text)
    else if exists i :: FirstForm(m.forms, "other", i) then FormText(m.forms, "other", text)
    else text.None?
  }

  ghost predicate FormText(forms: seq<Form>, category: string, text: Option<string>) {
    exists i :: FirstForm(forms, category, i) && text == Some(forms[i].text)
  }

  ghost predicate FirstForm(forms: seq<Form>, category: string, i: int) {
    0 <= i < |forms| && forms[i].category == category && forall j :: 0 <= j < i ==> forms[j].category != category
  }

  lemma {:induction false} FormAt(forms: seq<Form>, category: string) returns (i: nat)
    ensures FormOf(forms, category).Some? ==>
              FirstForm(forms, category, i) && FormOf(forms, category).value == forms[i].text
    ensures FormOf(forms, category).None? ==> forall j :: !FirstForm(forms, category, j)
    decreases |forms|
  {
    i := 0;
    if forms != [] && forms[0].category != category {
      i := FormAt(forms[1..], category);
      assert forall j :: 1 <= j < |forms| ==> forms[j] == forms[1..][j - 1];
      i := i + 1;
    }
  }

  /** The number that decides the plural form. */
  ghost function CountIn(args: map<string, Argument>): Option<real> {
    if "count" in args then args["count"].magnitude else None
  }

  lemma ChosenText(m: Message, category: string)
    ensures m.Single? ==> TextOf(m, category, Some(m.text))
    ensures m.Plural? ==> TextOf(m, category, if FormOf(m.forms, category).Some? then FormOf(m.forms, category)
                                              else FormOf(m.forms, "other"))
  {
    if m.Plural? {
      var i := FormAt(m.forms, category);
      var j := FormAt(m.forms, "other");
      hide FirstForm, FormOf;
    }
  }

  /** For any catalogs, language, key and arguments: the template is that of the catalog
      serving the key, in the form its own rules give the count; a key that no catalog
      serves stands for itself. */
  lemma TemplateExactly(catalogs: map<string, Catalog>, language: string, key: string, args: map<string, Argument>,
                        tag: string)
    ensures Serves(catalogs, language, key, tag) ==>
              exists i, category ::
                FirstUnder(catalogs[tag].messages, key, i) && HasCategory(catalogs[tag].rules, CountIn(args), category)
                && TextOf(catalogs[tag].messages[i].message, category, Template(catalogs, language, key, args))
    ensures (forall t :: !Serves(catalogs, language, key, t)) ==> Template(catalogs, language, key, args) == Some(key)
  {
    hide HasKey, FirstUnder, HasCategory, TextOf, CategoryOf, Lookup, FormOf;
    var own := KeyIn(catalogs, language, key);
    var english := KeyIn(catalogs, "en", key);
    assert Serves(catalogs, language, key, language) <==>
        language in catalogs && HasKey(catalogs[language].messages, key);
    assert !Serves(catalogs, language, key, language) ==>
        (Serves(catalogs, language, key, "en") <==> "en" in catalogs && HasKey(catalogs["en"].messages, key));
    if Serves(catalogs, language, key, tag) {
      var i := if tag == language then own else english;
      var rules, m := catalogs[tag].rules, catalogs[tag].messages[i].message;
      var count := CountIn(args);
      var category := if count.Some? then CategoryOf(rules, count.value) else "other";
      if count.Some? { CategoryExactly(rules, count.value); } else { NoCount(rules); }
      ChosenText(m, category);
      assert TextOf(m, category, Template(catalogs, language, key, args));
    }
  }

  lemma NoCount(rules: seq<Rule>)
    ensures HasCategory(rules, None, "other")
  {
  }

  lemma KeyIn(catalogs: map<string, Catalog>, tag: string, key: string) returns (i: nat)
    ensures MessageOf(catalogs, tag, key).Some? <==> tag in catalogs && HasKey(catalogs[tag].messages, key)
    ensures MessageOf(catalogs, tag, key).Some? ==>
              FirstUnder(catalogs[tag].messages, key, i)
              && i < |catalogs[tag].messages|
              && MessageOf(catalogs, tag, key).value == catalogs[tag].messages[i].message
  {
    i := 0;
    if tag in catalogs { i := LookupAt(catalogs[tag].messages, key); }
  }

  // ----- what acceptance gives the engine -------------------------------

  ghost predicate DistinctTags(files: seq<File>) {
    forall i, j :: 0 <= i < j < |files| ==> files[i].tag != files[j].tag
  }

  lemma {:induction false} LoadedFrom(files: seq<File>, tag: string) returns (k: nat)
    requires tag in Loaded(files)
    ensures k < |files| && files[k].tag == tag && Loaded(files)[tag] == Finished(files[k].data)
    decreases |files|
  {
    var n := |files| - 1;
    if files[n].tag == tag { k := n; } else { k := LoadedFrom(files[..n], tag); }
  }

  lemma {:induction false} LoadedAt(files: seq<File>, k: nat)
    requires DistinctTags(files) && k < |files|
    ensures files[k].tag in Loaded(files) && Loaded(files)[files[k].tag] == Finished(files[k].data)
    decreases |files|
  {
    var n := |files| - 1;
    if k < n {
      assert files[..n][k] == files[k];
      LoadedAt(files[..n], k);
    }
  }

  lemma {:induction false} EnglishAt(files: seq<File>) returns (k: nat)
    requires English(files).Some?
    ensures k < |files| && files[k].tag == "en" && files[k].data == English(files).value
    decreases |files|
  {
    if files[0].tag == "en" { k := 0; } else { k := EnglishAt(files[1..]); k := k + 1; }
  }

  /** Every message of an accepted catalog fits the English message of its key. */
  lemma StoredMessageFits(files: seq<File>, language: string, key: string)
    requires Acceptable(files) && MessageOf(Loaded(files), language, key).Some?
    ensures Lookup(English(files).value.messages, key).Some?
    ensures MessageFits(MessageOf(Loaded(files), language, key).value, Lookup(English(files).value.messages, key).value)
  {
    hide MessageFits, FileOk, Loaded;
    var k := LoadedFrom(files, language);
    var messages := files[k].data.messages;
    var m := Lookup(messages, key).value;
    var i :| 0 <= i < |messages| && messages[i] == Entry(key, m);
    assert EntriesFit(messages, English(files).value.messages);
  }

  lemma EnglishStored(files: seq<File>, key: string)
    requires Acceptable(files) && DistinctTags(files)
    ensures MessageOf(Loaded(files), "en", key) == Lookup(English(files).value.messages, key)
  {
    hide FileOk, EntriesFit, Loaded, Lookup;
    var k := EnglishAt(files);
    LoadedAt(files, k);
  }

  /** A chosen text of a fitting message has the English placeholders. */
  lemma ChosenFits(m: Message, base: Message, category: string)
    requires MessageFits(m, base)
    ensures m.Single? ==> Names(m.text) == Names(Variants(base).value[0])
    ensures m.Plural? ==>
              var chosen := FormOf(m.forms, category);
              var text := if chosen.Some? then chosen else FormOf(m.forms, "other");
              text.Some? && Names(text.value) == Names(Variants(base).value[0])
  {
    hide Names;
    if m.Plural? {
      var chosen := FormOf(m.forms, category);
      var text := if chosen.Some? then chosen else FormOf(m.forms, "other");
      var form := Form(if chosen.Some? then category else "other", text.value);
      var i :| 0 <= i < |m.forms| && m.forms[i] == form;
      assert Variants(m).value[i] == text.value;
    } else {
      assert Variants(m).value[0] == m.text;
    }
  }

  /** For every accepted set of catalogs, every language text and every English key, a
      template is found, and its placeholders are those of the English message. */
  lemma TemplateDefined(files: seq<File>, language: string, key: string, args: map<string, Argument>)
    requires Acceptable(files) && DistinctTags(files)
    requires Lookup(English(files).value.messages, key).Some?
    ensures Variants(Lookup(English(files).value.messages, key).value).Some?
    ensures Template(Loaded(files), language, key, args).Some?
    ensures Names(Template(Loaded(files), language, key, args).value) ==
            Names(Variants(Lookup(English(files).value.messages, key).value).value[0])
  {
    hide Names, MessageFits, FileOk, EntriesFit, Loaded, CategoryOf, Lookup, Variants, FormOf;
    var catalogs, base := Loaded(files), Lookup(English(files).value.messages, key).value;
    EnglishStored(files, key);
    StoredMessageFits(files, "en", key);
    FitsParts(MessageOf(catalogs, "en", key).value, base);
    var translated := MessageOf(catalogs, language, key);
    var tag := if translated.Some? then language else "en";
    if translated.Some? { StoredMessageFits(files, language, key); }
    var message := if translated.Some? then translated.value else MessageOf(catalogs, "en", key).value;
    var count := if "count" in args then args["count"].magnitude else None;
    ChosenFits(message, base,
               if tag in catalogs && count.Some? then CategoryOf(catalogs[tag].rules, count.value) else "other");
  }

  lemma FitsParts(m: Message, base: Message)
    requires MessageFits(m, base)
    ensures Variants(base).Some? && Variants(m).Some?
  {
  }

  /** With an argument for every English placeholder no placeholder is left open: the
      output is the template's literals with the arguments' texts in between. */
  lemma {:induction false} RenderClosed(ts: seq<Token>, args: map<string, string>)
    requires forall k :: 0 <= k < |ts| && ts[k].Hole? ==> ts[k].name in args
    ensures Render(ts, args) == Filled(ts, args)
    decreases |ts|
  {
    if ts != [] { RenderClosed(ts[1..], args); }
  }

  /** Literals and argument texts, in template order. */
  ghost function Filled(ts: seq<Token>, args: map<string, string>): string
    requires forall k :: 0 <= k < |ts| && ts[k].Hole? ==> ts[k].name in args
  {
    if ts == [] then "" else (if ts[0].Lit? then [ts[0].c] else args[ts[0].name]) + Filled(ts[1..], args)
  }

  lemma TranslationFilled(files: seq<File>, language: string, key: string, args: map<string, Argument>)
    requires Acceptable(files) && DistinctTags(files)
    requires Lookup(English(files).value.messages, key).Some?
    requires Variants(Lookup(English(files).value.messages, key).value).Some? ==>
               Names(Variants(Lookup(English(files).value.messages, key).value).value[0]) <= args.Keys
    ensures Template(Loaded(files), language, key, args).Some?
    ensures var ts := Tokens(Template(Loaded(files), language, key, args).value);
            (forall k :: 0 <= k < |ts| && ts[k].Hole? ==> ts[k].name in TextsOf(args))
            && TranslateMessage(Loaded(files), language, key, args) == Some(Filled(ts, TextsOf(args)))
  {
    hide FileOk, EntriesFit, Loaded, Lookup, Variants, Tokens, Template;
    TemplateDefined(files, language, key, args);
    var t := Template(Loaded(files), language, key, args).value;
    var ts := Tokens(t);
    forall k | 0 <= k < |ts| && ts[k].Hole? ensures ts[k].name in TextsOf(args) {
      assert ts[k] in ts;
      assert ts[k].name in Names(t);
    }
    RenderClosed(ts, TextsOf(args));
  }
}
