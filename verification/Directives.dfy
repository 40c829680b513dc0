/** How the proxy reads numbers out of Cache-Control text: `find`, `substr` and `stol`. */
module Directives {
  import opened Bytes
  import opened Options

  // ---- the C++ string functions ----------------------------------------------------------------

  /** `s.find(pat)` for a non-empty pattern. */
  function Find(s: string, pat: string): (r: Option<nat>)
    ensures r.Some? ==> r.value + |pat| <= |s| && s[r.value..][..|pat|] == pat
  {
    if |s| < |pat| then None
    else if s[..|pat|] == pat then Some(0)
    else if s == "" then None
    else match Find(s[1..], pat)
      case None => None
      case Some(i) =>
        assert s[1..][i..] == s[i + 1..];
        Some(i + 1)
  }

  predicate Contains(s: string, pat: string) {
    Find(s, pat).Some?
  }

  /** `stol`, which throws without a leading number. */
  function Stol(s: string): Option<int> {
    var t := SkipSpaces(s);
    var digits := if t != "" && (t[0] == '-' || t[0] == '+') then t[1..] else t;
    if digits == "" || !IsDigit(digits[0]) then None else Some(Atoi(s))
  }

  /** What the extraction of one directive comes to. `Broken` is a thrown exception. */
  datatype Extracted = Absent | Broken | Value(n: int)

  /** `stol` on an argument. */
  function Number(s: string): Extracted {
    match Stol(s) case Some(n) => Value(n) case None => Broken
  }

  /** From a found name on: skip it and one more byte and read up to the next comma. `substr`
      throws past the end of the text, and its length wraps around when the comma comes at once. */
  function ReadArgument(t: string, name: string): Extracted {
    var skip := |name| + 1;
    if skip > |t| then Broken
    else
      var arg := match Find(t, ",")
                 case Some(ends) => if skip <= ends then t[skip..ends] else t[skip..]
                 case None => t[skip..];
      Number(arg)
  }

  function Extract(text: string, name: string): Extracted {
    match Find(text, name)
    case None => Absent
    case Some(at) => ReadArgument(text[at..], name)
  }

  // ---- any text as pieces between commas -------------------------------------------------------

  function Join(ps: seq<string>): string
    decreases |ps|, 1
  {
    if ps == [] then "" else ps[0] + AfterFirst(ps)
  }

  /** What follows the first piece. */
  function AfterFirst(ps: seq<string>): string
    requires ps != []
    decreases |ps|, 0
  {
    if |ps| == 1 then "" else "," + Join(ps[1..])
  }

  function Pieces(text: string): (ps: seq<string>)
    ensures ps != []
  {
    if text == "" then [""]
    else
      var ps := Pieces(text[1..]);
      if text[0] == ',' then [""] + ps else [[text[0]] + ps[0]] + ps[1..]
  }

  predicate AreCommaFree(ps: seq<string>) {
    forall i :: 0 <= i < |ps| ==> ',' !in ps[i]
  }

  /** Some piece contains `pat`. */
  predicate SomeContains(ps: seq<string>, pat: string) {
    exists i :: 0 <= i < |ps| && Contains(ps[i], pat)
  }

  /** What one piece after another is read as: the first piece that contains the name decides. Its
      number starts one byte after the name; when nothing follows the name there, the comma is
      skipped and the whole rest of the text is read. */
  function Reading(ps: seq<string>, name: string): Extracted {
    if ps == [] then Absent
    else
      match Find(ps[0], name)
      case None => Reading(ps[1..], name)
      case Some(k) =>
        if k + |name| < |ps[0]| then Number(ps[0][k + |name| + 1..])
        else if |ps| == 1 then Broken
        else Number(Join(ps[1..]))
  }

  // ---- structured Cache-Control headers ----------------------------------------------------------

  /** A directive after any number of spaces, with a number or without an argument. */
  datatype Directive = Directive(lead: string, name: string, arg: Option<string>)

  predicate IsNameChar(c: char) {
    IsAlpha(c) || c == '-'
  }

  predicate IsDirectiveName(s: string) {
    s != "" && forall i :: 0 <= i < |s| ==> IsNameChar(s[i])
  }

  predicate IsDirective(d: Directive) {
    && (forall i :: 0 <= i < |d.lead| ==> d.lead[i] == ' ')
    && IsDirectiveName(d.name) && IsAlpha(d.name[0])
    && (d.arg.Some? ==> IsNumber(d.arg.value))
  }

  predicate AreDirectives(ds: seq<Directive>) {
    forall i :: 0 <= i < |ds| ==> IsDirective(ds[i])
  }

  function PrintArg(d: Directive): string {
    match d.arg case Some(a) => "=" + a case None => ""
  }

  function PrintDirective(d: Directive): string {
    d.lead + d.name + PrintArg(d)
  }

  function Texts(ds: seq<Directive>): (ps: seq<string>)
    ensures |ps| == |ds| && forall i :: 0 <= i < |ds| ==> ps[i] == PrintDirective(ds[i])
  {
    if ds == [] then [] else [PrintDirective(ds[0])] + Texts(ds[1..])
  }

  /** The directives joined by commas. */
  function Render(ds: seq<Directive>): string {
    Join(Texts(ds))
  }

  /** What a reader of the structure expects: the first directive of that name decides, and without
      an argument it is unreadable. */
  function FirstDirective(ds: seq<Directive>, name: string): Extracted {
    if ds == [] then Absent
    else if ds[0].name == name then
      match ds[0].arg case Some(a) => Value(ReadDigits(0, a)) case None => Broken
    else FirstDirective(ds[1..], name)
  }

  /** What is read: the first directive whose name contains `name` decides. It has to have an
      argument, and `name` has to be the end of its name. */
  function FirstContaining(ds: seq<Directive>, name: string): Extracted {
    if ds == [] then Absent
    else
      match Find(ds[0].name, name)
      case None => FirstContaining(ds[1..], name)
      case Some(k) =>
        if k + |name| == |ds[0].name| && ds[0].arg.Some? then Value(ReadDigits(0, ds[0].arg.value)) else Broken
  }

  /** No directive before the first of that name has a longer name that contains it. */
  predicate Unhidden(ds: seq<Directive>, name: string) {
    ds == [] || ds[0].name == name || (!Contains(ds[0].name, name) && Unhidden(ds[1..], name))
  }

  // ---- find --------------------------------------------------------------------------------------

  lemma {:induction false} FindNeedsEveryChar(s: string, pat: string, k: nat)
    requires k < |pat| && pat[k] !in s
    ensures Find(s, pat) == None
  {
    if |s| >= |pat| {
      assert s[..|pat|][k] in s;
      FindNeedsEveryChar(s[1..], pat, k);
    }
  }

  /** `find` gives the first place at which the pattern stands, or none if it stands nowhere. */
  lemma {:induction false} FindMeaning(s: string, pat: string)
    requires pat != ""
    ensures Find(s, pat).Some? ==> pat <= s[Find(s, pat).value..]
    ensures forall i :: 0 <= i < (if Find(s, pat).Some? then Find(s, pat).value else |s|) ==> !(pat <= s[i..])
  {
    if s != "" {
      FindStep(s, pat);
      FindMeaning(s[1..], pat);
      hide Find;
      assert s[0..] == s;
      assert forall i :: 0 < i < |s| ==> s[i..] == s[1..][i - 1..];
      if Find(s[1..], pat).Some? {
        var k := Find(s[1..], pat).value;
        assert s[k + 1..] == s[1..][k..];
      }
    }
  }

  function Shifted(n: nat, r: Option<nat>): Option<nat> {
    match r case Some(i) => Some(n + i) case None => None
  }

  lemma ShortFind(s: string, pat: string)
    ensures |s| < |pat| ==> Find(s, pat) == None
  {
  }

  /** Either the pattern stands in front or the search goes on one byte later. */
  lemma FindStep(s: string, pat: string)
    requires pat != "" && s != ""
    ensures Find(s, pat) == if pat <= s then Some(0) else Shifted(1, Find(s[1..], pat))
  {
    ShortFind(s[1..], pat);
    if |s| >= |pat| {
      assert pat <= s <==> s[..|pat|] == pat;
    }
  }

  lemma FindSkip(c: char, s: string, pat: string)
    requires pat != "" && pat[0] != c
    ensures Find([c] + s, pat) == Shifted(1, Find(s, pat))
  {
    FindStep([c] + s, pat);
    assert ([c] + s)[1..] == s;
  }

  /** An occurrence cannot straddle a byte that the pattern does not contain. */
  lemma {:induction false} FindAcross(a: string, c: char, b: string, pat: string)
    requires pat != "" && c !in pat
    ensures Find(a + [c] + b, pat) == if Contains(a, pat) then Find(a, pat) else Shifted(|a| + 1, Find(b, pat))
    decreases a
  {
    hide Find;
    var s := a + [c] + b;
    FindStep(s, pat);
    assert s[|a|] == c;
    if a == "" {
      assert s[1..] == b && s[0] == c;
      ShortFind(a, pat);
    } else {
      FindStep(a, pat);
      assert s[1..] == a[1..] + [c] + b;
      assert pat <= s <==> pat <= a by { PrefixAcross(a, c, b, pat); }
      FindAcross(a[1..], c, b, pat);
    }
  }

  lemma PrefixAcross(a: string, c: char, b: string, pat: string)
    requires c !in pat
    ensures pat <= a + [c] + b <==> pat <= a
  {
    var s := a + [c] + b;
    assert s[|a|] == c && (|pat| > |a| ==> pat[|a|] != c);
  }

  lemma {:induction false} FindAfterSpaces(lead: string, s: string, pat: string)
    requires pat != "" && ' ' !in pat && forall i :: 0 <= i < |lead| ==> lead[i] == ' '
    ensures Find(lead + s, pat) == Shifted(|lead|, Find(s, pat))
    decreases lead
  {
    hide Find;
    if lead == "" {
      assert lead + s == s;
    } else {
      FindAfterSpaces(lead[1..], s, pat);
      FindAcross("", ' ', lead[1..] + s, pat);
      ShortFind("", pat);
      assert "" + [' '] + (lead[1..] + s) == lead + s;
    }
  }

  lemma FindInDirective(d: Directive, pat: string)
    requires IsDirective(d) && IsDirectiveName(pat)
    ensures Find(PrintDirective(d), pat) == Shifted(|d.lead|, Find(d.name, pat))
  {
    hide Find;
    NameCharsOnly(pat);
    var body := d.name + PrintArg(d);
    FindAfterSpaces(d.lead, body, pat);
    assert PrintDirective(d) == d.lead + body;
    match d.arg
    case None => assert body == d.name;
    case Some(a) =>
      assert body == d.name + ['='] + a;
      FindAcross(d.name, '=', a, pat);
      assert pat[0] !in a;
      FindNeedsEveryChar(a, pat, 0);
  }

  lemma NameCharsOnly(pat: string)
    requires IsDirectiveName(pat)
    ensures pat != "" && ' ' !in pat && ',' !in pat && '=' !in pat
  {
  }

  lemma JoinTwo(ps: seq<string>)
    requires |ps| > 1
    ensures Join(ps) == ps[0] + [','] + Join(ps[1..])
  {
  }

  lemma JoinOne(ps: seq<string>)
    requires |ps| == 1
    ensures Join(ps) == ps[0]
  {
    assert ps[0] + "" == ps[0];
  }

  /** Finding in joined pieces is finding in the first piece that contains the pattern. */
  lemma FindInJoin(ps: seq<string>, pat: string)
    requires ps != [] && pat != "" && ',' !in pat
    ensures Find(Join(ps), pat) ==
            if Contains(ps[0], pat) then Find(ps[0], pat)
            else if |ps| == 1 then None
            else Shifted(|ps[0]| + 1, Find(Join(ps[1..]), pat))
  {
    hide Find, Join;
    if |ps| == 1 {
      JoinOne(ps);
    } else {
      JoinTwo(ps);
      FindAcross(ps[0], ',', Join(ps[1..]), pat);
    }
  }

  lemma {:induction false} FindComma(a: string, b: string)
    requires ',' !in a
    ensures Find(a, ",") == None
    ensures Find(a + ([','] + b), ",") == Some(|a|)
    decreases a
  {
    FindNeedsEveryChar(a, ",", 0);
    var s := a + ([','] + b);
    if a != "" {
      assert s[..1] == [a[0]] && s[1..] == a[1..] + ([','] + b);
      FindComma(a[1..], b);
    }
  }

  // ---- numbers -----------------------------------------------------------------------------------

  lemma StolOfNumber(s: string)
    requires IsNumber(s)
    ensures Stol(s) == Some(ReadDigits(0, s))
  {
    assert SkipSpaces(s) == s;
  }

  /** `stol` reads the digits after leading white space and one optional sign, by place value, whatever
      follows them, and throws exactly when there are none. */
  lemma StolMeaning(lead: string, digits: string, t: string)
    requires (forall i :: 0 <= i < |lead| ==> IsSpace(lead[i])) && IsDigitText(digits) && (t == "" || !IsDigit(t[0]))
    ensures Stol(lead + ("+" + (digits + t))) == if digits == "" then None else Some(DecimalNumber(digits))
    ensures Stol(lead + ("-" + (digits + t))) == if digits == "" then None else Some(0 - DecimalNumber(digits))
    ensures digits != "" || t == "" || (!IsSpace(t[0]) && t[0] != '+' && t[0] != '-') ==>
              Stol(lead + (digits + t)) == if digits == "" then None else Some(DecimalNumber(digits))
  {
    hide SkipSpaces, ReadDigits, DecimalNumber, Atoi;
    var s := digits + t;
    AtoiMeaning(lead, digits, t);
    SkipLeadingSpaces(lead, "+" + s);
    SkipLeadingSpaces(lead, "-" + s);
    assert ("+" + s)[1..] == s && ("-" + s)[1..] == s;
    assert digits == "" ==> s == t;
    assert digits != "" ==> s[0] == digits[0];
    if digits != "" || t == "" || (!IsSpace(t[0]) && t[0] != '+' && t[0] != '-') {
      SkipLeadingSpaces(lead, s);
    }
  }

  /** Text that starts with a directive is not a number. */
  lemma StolOfDirective(d: Directive, more: string)
    requires IsDirective(d)
    ensures Stol(PrintDirective(d) + more) == None
  {
    var s := d.name + PrintArg(d) + more;
    assert PrintDirective(d) + more == d.lead + s;
    SkipLeadingSpaces(d.lead, s);
  }

  /** The rest of a name, and what may follow it, is not a number. */
  lemma StolOfNameRest(s: string, d: Directive)
    requires IsDirective(d) && forall i :: 0 <= i < |s| ==> IsNameChar(s[i])
    ensures Stol(s + PrintArg(d)) == None
  {
    var t := s + PrintArg(d);
    if t != "" {
      assert t[0] == '=' || IsNameChar(t[0]);
      assert SkipSpaces(t) == t;
      assert |t| > 1 && t[0] == '-' ==> t[1] == '=' || IsNameChar(t[1]);
    }
  }

  // ---- extraction ----------------------------------------------------------------------------------

  /** Cutting at the commas and joining gives the text back. */
  lemma {:induction false} JoinPieces(text: string)
    ensures AreCommaFree(Pieces(text)) && Join(Pieces(text)) == text
  {
    if text != "" {
      JoinPieces(text[1..]);
      var ps := Pieces(text[1..]);
      JoinCons(text[0], ps);
      assert text == [text[0]] + text[1..];
    }
  }

  lemma JoinCons(c: char, ps: seq<string>)
    requires ps != []
    ensures Join([""] + ps) == "," + Join(ps)
    ensures Join([[c] + ps[0]] + ps[1..]) == [c] + Join(ps)
  {
    assert ([""] + ps)[1..] == ps;
    var qs := [[c] + ps[0]] + ps[1..];
    assert qs[1..] == ps[1..];
    assert AfterFirst(qs) == AfterFirst(ps);
    assert [c] + ps[0] + AfterFirst(ps) == [c] + (ps[0] + AfterFirst(ps));
  }

  /** Where a leading part of the text does not matter. */
  lemma ExtractShifted(lead: string, text: string, name: string)
    requires Find(lead + text, name) == Shifted(|lead|, Find(text, name))
    ensures Extract(lead + text, name) == Extract(text, name)
  {
    hide Find, ReadArgument;
    if Find(text, name).Some? {
      var at := Find(text, name).value;
      assert (lead + text)[|lead| + at..] == text[at..];
    }
  }

  lemma ArgumentInPiece(p: string, rest: string, k: nat, name: string)
    requires ',' !in p && k + |name| <= |p| && (rest == "" || rest[0] == ',')
    ensures ReadArgument((p + rest)[k..], name) ==
            if k + |name| < |p| then Number(p[k + |name| + 1..])
            else if rest == "" then Broken
            else Number(rest[1..])
  {
    hide Find, Stol;
    var t, q, skip := (p + rest)[k..], p[k..], |name| + 1;
    assert t == q + rest;
    if rest == "" {
      FindComma(q, "");
      assert t == q;
    } else {
      assert rest == [','] + rest[1..];
      FindComma(q, rest[1..]);
      if skip <= |q| {
        assert t[skip..|q|] == p[k + skip..];
      } else {
        assert t[skip..] == rest[1..];
      }
    }
  }

  lemma {:induction false} ExtractJoined(ps: seq<string>, name: string)
    requires AreCommaFree(ps) && name != "" && ',' !in name
    ensures Extract(Join(ps), name) == Reading(ps, name)
  {
    hide Find, ReadArgument;
    if ps == [] {
      ShortFind("", name);
    } else {
      FindInJoin(ps, name);
      if Contains(ps[0], name) {
        ArgumentInPiece(ps[0], AfterFirst(ps), Find(ps[0], name).value, name);
      } else if |ps| > 1 {
        ExtractJoined(ps[1..], name);
        assert Join(ps) == ps[0] + "," + Join(ps[1..]);
        ExtractShifted(ps[0] + ",", Join(ps[1..]), name);
      }
    }
  }

  /** On every text, `find`, `substr` and `stol` read it piece by piece between its commas. */
  lemma ExtractMeaning(text: string, name: string)
    requires name != "" && ',' !in name
    ensures Extract(text, name) == Reading(Pieces(text), name)
  {
    hide Extract, Reading, Join, Pieces;
    JoinPieces(text);
    ExtractJoined(Pieces(text), name);
  }

  /** A word without commas is in a text when it is in a piece of it. */
  lemma {:induction false} ContainsJoined(ps: seq<string>, pat: string)
    requires pat != "" && ',' !in pat
    ensures Contains(Join(ps), pat) <==> SomeContains(ps, pat)
  {
    hide Find;
    if ps == [] {
      ShortFind("", pat);
    } else {
      FindInJoin(ps, pat);
      ContainsJoined(ps[1..], pat);
      if |ps| == 1 {
        ShortFind("", pat);
      }
      assert forall i :: 0 <= i < |ps[1..]| ==> ps[1..][i] == ps[i + 1];
      assert SomeContains(ps, pat) <==> Contains(ps[0], pat) || SomeContains(ps[1..], pat);
    }
  }

  lemma ContainsIsInPiece(text: string, pat: string)
    requires pat != "" && ',' !in pat
    ensures Contains(text, pat) <==> SomeContains(Pieces(text), pat)
  {
    hide *;
    JoinPieces(text);
    ContainsJoined(Pieces(text), pat);
  }

  // ---- extraction from structured headers --------------------------------------------------------------

  lemma DirectiveIsCommaFree(d: Directive)
    requires IsDirective(d)
    ensures ',' !in PrintDirective(d)
  {
    assert ',' !in d.lead && ',' !in d.name && ',' !in PrintArg(d);
  }

  lemma DirectivesAreCommaFree(ds: seq<Directive>)
    requires AreDirectives(ds)
    ensures AreCommaFree(Texts(ds))
  {
    hide PrintDirective, IsDirective;
    forall i | 0 <= i < |ds| ensures ',' !in PrintDirective(ds[i]) {
      DirectiveIsCommaFree(ds[i]);
    }
  }

  /** Text that starts with a directive is not a number. */
  lemma RenderIsNoNumber(ds: seq<Directive>)
    requires AreDirectives(ds) && ds != []
    ensures Stol(Render(ds)) == None
  {
    hide PrintDirective, Stol;
    StolOfDirective(ds[0], AfterFirst(Texts(ds)));
  }

  /** The number of a directive whose name contains `name` at `k`. */
  lemma ReadsFound(d: Directive, name: string, k: nat)
    requires IsDirective(d) && IsDirectiveName(name) && k + |name| <= |d.name|
    ensures var p, at := PrintDirective(d), |d.lead| + k + |name|;
            && (at < |p| <==> k + |name| < |d.name| || d.arg.Some?)
            && (at < |p| ==>
                  Number(p[at + 1..]) == if k + |name| == |d.name| then Value(ReadDigits(0, d.arg.value)) else Broken)
  {
    hide Stol;
    var p, at := PrintDirective(d), |d.lead| + k + |name|;
    if k + |name| < |d.name| {
      var s := d.name[k + |name| + 1..];
      StolOfNameRest(s, d);
      assert p[at + 1..] == s + PrintArg(d);
    } else if d.arg.Some? {
      StolOfNumber(d.arg.value);
      assert p[at + 1..] == d.arg.value;
    }
  }

  lemma {:induction false} ReadingOfDirectives(ds: seq<Directive>, name: string)
    requires AreDirectives(ds) && IsDirectiveName(name)
    ensures Reading(Texts(ds), name) == FirstContaining(ds, name)
  {
    hide Find, PrintDirective, Number, IsDirectiveName;
    if ds != [] {
      assert Texts(ds)[1..] == Texts(ds[1..]);
      FindInDirective(ds[0], name);
      match Find(ds[0].name, name)
      case None =>
        ReadingOfDirectives(ds[1..], name);
      case Some(k) =>
        ReadsFound(ds[0], name, k);
        if |ds| > 1 {
          RenderIsNoNumber(ds[1..]);
          NumberOfNone(Render(ds[1..]));
        }
    }
  }

  lemma NumberOfNone(s: string)
    requires Stol(s) == None
    ensures Number(s) == Broken
  {
  }

  /** On the text of any list of directives, the first one whose name contains the sought one
      decides: its number is read when the sought name is the end of its name; otherwise, or
      without a number, reading throws. */
  lemma ExtractIsFirstContaining(ds: seq<Directive>, name: string)
    requires AreDirectives(ds) && IsDirectiveName(name)
    ensures Extract(Render(ds), name) == FirstContaining(ds, name)
  {
    hide Extract, Reading, FirstContaining, Texts;
    NameCharsOnly(name);
    DirectivesAreCommaFree(ds);
    ExtractJoined(Texts(ds), name);
    ReadingOfDirectives(ds, name);
  }

  lemma FindItself(s: string)
    ensures Find(s, s) == Some(0)
  {
    assert s[..|s|] == s;
  }

  /** Text extraction refines structured lookup as long as the name does not hide in the name of a
      directive before the first of that name, wherever that stands and however it is spaced. */
  lemma {:induction false} ExtractIsFirstDirective(ds: seq<Directive>, name: string)
    requires AreDirectives(ds) && IsDirectiveName(name) && Unhidden(ds, name)
    ensures Extract(Render(ds), name) == FirstDirective(ds, name)
  {
    hide Extract, Render, Find;
    ExtractIsFirstContaining(ds, name);
    if ds != [] {
      FindItself(name);
      if ds[0].name != name {
        ExtractIsFirstDirective(ds[1..], name);
        ExtractIsFirstContaining(ds[1..], name);
      }
    }
  }

  /** Where the name of directive `i` stands in the text. */
  function StartOf(ds: seq<Directive>, i: nat): nat
    requires i < |ds|
  {
    if i == 0 then |ds[0].lead| else |PrintDirective(ds[0])| + 1 + StartOf(ds[1..], i - 1)
  }

  lemma FindInRendered(ds: seq<Directive>, pat: string)
    requires AreDirectives(ds) && ds != [] && IsDirectiveName(pat)
    ensures var d := ds[0];
            Find(Render(ds), pat) ==
            if Contains(d.name, pat) then Shifted(|d.lead|, Find(d.name, pat))
            else if |ds| == 1 then None
            else Shifted(|PrintDirective(d)| + 1, Find(Render(ds[1..]), pat))
  {
    hide Find, PrintDirective, Join;
    NameCharsOnly(pat);
    FindInDirective(ds[0], pat);
    FindInJoin(Texts(ds), pat);
    assert Texts(ds)[1..] == Texts(ds[1..]);
  }

  predicate NoneContains(ds: seq<Directive>, name: string) {
    forall i :: 0 <= i < |ds| ==> !Contains(ds[i].name, name)
  }

  lemma NoneContainsFirst(ds: seq<Directive>, name: string)
    requires ds != []
    ensures NoneContains(ds, name) <==> !Contains(ds[0].name, name) && NoneContains(ds[1..], name)
  {
    hide Contains;
    assert forall i :: 0 < i < |ds| ==> ds[i] == ds[1..][i - 1];
  }

  /** `find` lands on a directive of the sought name exactly when no earlier name contains it. */
  lemma {:induction false} FindLandsIff(ds: seq<Directive>, name: string, j: nat)
    requires AreDirectives(ds) && IsDirectiveName(name) && j < |ds| && ds[j].name == name
    ensures Find(Render(ds), name) == Some(StartOf(ds, j)) <==> NoneContains(ds[..j], name)
  {
    hide Find, Render, PrintDirective, IsDirective, IsDirectiveName, NoneContains;
    FindInRendered(ds, name);
    if j == 0 {
      FindItself(name);
      NoneIsNone(name);
    } else {
      NoneContainsFirst(ds[..j], name);
      assert ds[..j][1..] == ds[1..][..j - 1];
      NameFits(ds[0]);
      FindLandsIff(ds[1..], name, j - 1);
    }
  }

  lemma NoneIsNone(name: string)
    ensures NoneContains([], name)
  {
  }

  lemma NameFits(d: Directive)
    ensures |d.lead| + |d.name| <= |PrintDirective(d)|
  {
  }

  predicate SameNames(ds: seq<Directive>, es: seq<Directive>) {
    |ds| == |es| && forall i :: 0 <= i < |ds| ==> ds[i].name == es[i].name
  }

  /** The same names with numbers: 1 for the sought name, 2 for every other. */
  function Numbered(ds: seq<Directive>, name: string): (es: seq<Directive>)
    ensures SameNames(ds, es)
    ensures AreDirectives(ds) ==> AreDirectives(es)
  {
    seq(|ds|, i requires 0 <= i < |ds| => Directive("", ds[i].name, Some(if ds[i].name == name then "1" else "2")))
  }

  lemma ReadDigit(c: char)
    requires IsDigit(c)
    ensures ReadDigits(0, [c]) == DigitValue(c)
  {
    assert [c][1..] == "";
  }

  lemma {:induction false} HiddenIsMisread(es: seq<Directive>, ds: seq<Directive>, name: string)
    requires es == Numbered(ds, name) && !Unhidden(ds, name)
    ensures FirstContaining(es, name) != FirstDirective(es, name)
  {
    hide Find;
    ReadDigit('1');
    ReadDigit('2');
    if Contains(ds[0].name, name) {
      OnlyOneIsRead(es, name);
    } else {
      assert es[1..] == Numbered(ds[1..], name);
      HiddenIsMisread(es[1..], ds[1..], name);
    }
  }

  lemma {:induction false} OnlyOneIsRead(es: seq<Directive>, name: string)
    requires forall i :: 0 <= i < |es| && es[i].name == name ==> es[i].arg == Some("1")
    ensures FirstDirective(es, name) in {Absent, Value(1)}
  {
    ReadDigit('1');
    if es != [] && es[0].name != name {
      OnlyOneIsRead(es[1..], name);
    }
  }

  /** That condition on the names is exact: under it every choice of arguments and spaces is read
      right, and without it some choice is read wrong. */
  lemma ReadRightIff(ds: seq<Directive>, name: string)
    requires AreDirectives(ds) && IsDirectiveName(name)
    ensures Unhidden(ds, name) <==>
            forall es :: AreDirectives(es) && SameNames(ds, es) ==> Extract(Render(es), name) == FirstDirective(es, name)
  {
    hide Extract, Render, FirstDirective, FirstContaining, IsDirective, IsDirectiveName, Numbered;
    if Unhidden(ds, name) {
      forall es | AreDirectives(es) && SameNames(ds, es) ensures Extract(Render(es), name) == FirstDirective(es, name) {
        NamesDecideHiding(ds, es, name);
        ExtractIsFirstDirective(es, name);
      }
    } else {
      var es := Numbered(ds, name);
      ExtractIsFirstContaining(es, name);
      HiddenIsMisread(es, ds, name);
    }
  }

  lemma {:induction false} NamesDecideHiding(ds: seq<Directive>, es: seq<Directive>, name: string)
    requires SameNames(ds, es)
    ensures Unhidden(ds, name) <==> Unhidden(es, name)
  {
    hide Contains;
    if ds != [] {
      NamesDecideHiding(ds[1..], es[1..], name);
    }
  }

  // ---- the directives of section 5.2 of RFC 7234 ---------------------------------------------------

  predicate IsKnown(name: string) {
    name in {"max-age", "max-stale", "min-fresh", "no-cache", "no-store", "no-transform", "only-if-cached",
             "must-revalidate", "public", "private", "proxy-revalidate", "s-maxage"}
  }

  predicate IsNumeric(name: string) {
    name in {"max-age", "max-stale", "min-fresh", "s-maxage"}
  }

  predicate AreKnown(ds: seq<Directive>) {
    AreDirectives(ds) && forall i :: 0 <= i < |ds| ==> IsKnown(ds[i].name)
  }

  lemma Lacks(s: string, pat: string, k: nat)
    requires k < |pat| && pat[k] !in s
    ensures !Contains(s, pat)
  {
    FindNeedsEveryChar(s, pat, k);
  }

  lemma ShorterLacks(s: string, pat: string)
    requires |s| < |pat|
    ensures !Contains(s, pat)
  {
  }

  lemma SMaxAgeHidesNoMaxAge()
    ensures !Contains("s-maxage", "max-age")
  {
    hide Find;
    ShortFind("maxage", "max-age");
    FindSkip('-', "maxage", "max-age");
    FindSkip('s', "-maxage", "max-age");
    assert "s-maxage" == ['s'] + "-maxage" && "-maxage" == ['-'] + "maxage";
  }

  lemma NoHiddenMaxAge(name: string)
    requires IsKnown(name) && name != "max-age"
    ensures !Contains(name, "max-age")
  {
    hide Contains;
    var pat := "max-age";
    if name == "s-maxage" { SMaxAgeHidesNoMaxAge(); }
    else if |name| < 7 { ShorterLacks(name, pat); }
    else if name in {"max-stale", "proxy-revalidate"} { Lacks(name, pat, 5); }
    else { Lacks(name, pat, 2); }
  }

  lemma NoHiddenSMaxAge(name: string)
    requires IsKnown(name) && name != "s-maxage"
    ensures !Contains(name, "s-maxage")
  {
    hide Contains;
    var pat := "s-maxage";
    if |name| < 8 { ShorterLacks(name, pat); }
    else if name in {"max-stale", "proxy-revalidate"} { Lacks(name, pat, 6); }
    else { Lacks(name, pat, 4); }
  }

  lemma NoHiddenMaxStale(name: string)
    requires IsKnown(name) && name != "max-stale"
    ensures !Contains(name, "max-stale")
  {
    hide Contains;
    var pat := "max-stale";
    if |name| < 9 { ShorterLacks(name, pat); }
    else if name == "proxy-revalidate" { Lacks(name, pat, 0); }
    else { Lacks(name, pat, 2); }
  }

  lemma NoHiddenMinFresh(name: string)
    requires IsKnown(name) && name != "min-fresh"
    ensures !Contains(name, "min-fresh")
  {
    hide Contains;
    var pat := "min-fresh";
    if |name| < 9 { ShorterLacks(name, pat); }
    else if name == "only-if-cached" { Lacks(name, pat, 0); }
    else if name == "no-transform" { Lacks(name, pat, 1); }
    else if name == "max-stale" { Lacks(name, pat, 4); }
    else if name == "must-revalidate" { Lacks(name, pat, 4); }
    else { Lacks(name, pat, 4); }
  }

  lemma {:induction false} KnownAreUnhidden(ds: seq<Directive>, name: string)
    requires AreKnown(ds) && IsNumeric(name)
    ensures Unhidden(ds, name)
  {
    hide Contains, IsKnown, IsNumeric, IsDirective;
    if ds != [] {
      assert IsKnown(ds[0].name);
      KnownAreUnhidden(ds[1..], name);
      if ds[0].name != name {
        NoHidden(ds[0].name, name);
      }
    }
  }

  lemma NumericIsName(name: string)
    requires IsNumeric(name)
    ensures IsDirectiveName(name)
  {
  }

  /** None of the standard directives hides in the name of another, so the text of any list of them
      is read as the structure says. */
  lemma KnownDirectivesAreReadRight(ds: seq<Directive>, name: string)
    requires AreKnown(ds) && IsNumeric(name)
    ensures Extract(Render(ds), name) == FirstDirective(ds, name)
  {
    hide Extract, Render, FirstDirective, IsKnown, IsNumeric, IsDirective, IsDirectiveName, Unhidden;
    KnownAreUnhidden(ds, name);
    NumericIsName(name);
    ExtractIsFirstDirective(ds, name);
  }

  lemma NoHidden(name: string, pat: string)
    requires IsKnown(name) && IsNumeric(pat) && name != pat
    ensures !Contains(name, pat)
  {
    hide Contains, IsKnown;
    if pat == "max-age" { NoHiddenMaxAge(name); }
    else if pat == "s-maxage" { NoHiddenSMaxAge(name); }
    else if pat == "max-stale" { NoHiddenMaxStale(name); }
    else { NoHiddenMinFresh(name); }
  }

  /** For one: a response that says only "x-max-age=n" is taken to say "max-age=n". */
  lemma HiddenNameIsMisread(n: string)
    requires IsNumber(n)
    ensures var ds := [Directive("", "x-max-age", Some(n))];
            AreDirectives(ds) && FirstDirective(ds, "max-age") == Absent
            && Extract(Render(ds), "max-age") == Value(ReadDigits(0, n))
  {
    hide Find, Extract, Render, IsNumber;
    var ds := [Directive("", "x-max-age", Some(n))];
    ExtractIsFirstContaining(ds, "max-age");
    FindHidden();
  }

  lemma FindHidden()
    ensures Find("x-max-age", "max-age") == Some(2)
  {
    hide Find;
    assert "x-max-age" == ['x'] + "-max-age";
    assert "-max-age" == ['-'] + "max-age";
    FindItself("max-age");
    FindSkip('-', "max-age", "max-age");
    FindSkip('x', "-max-age", "max-age");
  }

  // ---- directives looked up by name only -------------------------------------------------------------

  predicate IsFlag(name: string) {
    name in {"no-cache", "no-store", "private"}
  }

  predicate HasDirective(ds: seq<Directive>, name: string) {
    exists i :: 0 <= i < |ds| && ds[i].name == name
  }

  lemma NoHiddenPrivate(name: string)
    requires IsKnown(name) && name != "private"
    ensures !Contains(name, "private")
  {
    hide Find;
    var pat := "private";
    if name == "proxy-revalidate" {
      assert pat[2] != name[2];
      FindStep(name, pat);
      FindNeedsEveryChar(name[1..], pat, 0);
    } else if name == "public" {
      ShortFind(name, pat);
    } else {
      Lacks(name, pat, 0);
    }
  }

  lemma NamesWithoutN(name: string)
    requires name in {"max-stale", "must-revalidate", "proxy-revalidate", "s-maxage", "public", "private", "max-age"}
    ensures 'n' !in name
  {
  }

  lemma NoHiddenNoStore(name: string)
    requires IsKnown(name) && name != "no-store"
    ensures !Contains(name, "no-store")
  {
    hide Contains;
    var pat := "no-store";
    if name == "no-transform" { Lacks(name, pat, 7); }
    else if name == "no-cache" { Lacks(name, pat, 3); }
    else if name == "only-if-cached" { Lacks(name, pat, 3); }
    else if name == "min-fresh" { Lacks(name, pat, 1); }
    else {
      NamesWithoutN(name);
      Lacks(name, pat, 0);
    }
  }

  lemma NoHiddenNoCache(name: string)
    requires IsKnown(name) && name != "no-cache"
    ensures !Contains(name, "no-cache")
  {
    hide Contains;
    var pat := "no-cache";
    if name == "only-if-cached" { NoNoCacheInOnlyIfCached(); }
    else if name in {"no-transform", "no-store", "min-fresh"} { Lacks(name, pat, 3); }
    else {
      NamesWithoutN(name);
      Lacks(name, pat, 0);
    }
  }

  lemma NoNoCacheInOnlyIfCached()
    ensures !Contains("only-if-cached", "no-cache")
  {
    hide Find;
    FindNeedsEveryChar("nly-if-cached", "no-cache", 1);
    FindSkip('o', "nly-if-cached", "no-cache");
    assert "only-if-cached" == ['o'] + "nly-if-cached";
  }

  lemma NoHiddenFlag(name: string, pat: string)
    requires IsKnown(name) && IsFlag(pat) && name != pat
    ensures !Contains(name, pat)
  {
    hide Contains, IsKnown;
    if pat == "private" { NoHiddenPrivate(name); }
    else if pat == "no-store" { NoHiddenNoStore(name); }
    else { NoHiddenNoCache(name); }
  }

  lemma FlagInDirective(d: Directive, name: string)
    requires IsDirective(d) && IsKnown(d.name) && IsFlag(name)
    ensures Contains(PrintDirective(d), name) <==> d.name == name
  {
    hide Find, IsKnown, IsDirective, PrintDirective;
    assert IsDirectiveName(name);
    FindInDirective(d, name);
    FindItself(name);
    if d.name != name {
      NoHiddenFlag(d.name, name);
    }
  }

  lemma FlagIsWord(name: string)
    requires IsFlag(name)
    ensures name != "" && ',' !in name
  {
  }

  /** In the text of any list of standard directives, finding "no-cache", "no-store" or "private" is
      having that directive. */
  lemma FlagIsPresent(ds: seq<Directive>, name: string)
    requires AreKnown(ds) && IsFlag(name)
    ensures Contains(Render(ds), name) <==> HasDirective(ds, name)
  {
    hide Contains, IsFlag, IsKnown, IsDirective, PrintDirective;
    FlagIsWord(name);
    ContainsJoined(Texts(ds), name);
    forall i | 0 <= i < |ds| ensures Contains(Texts(ds)[i], name) <==> ds[i].name == name {
      assert IsKnown(ds[i].name);
      FlagInDirective(ds[i], name);
    }
  }
}
