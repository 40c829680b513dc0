/** Header lookup and freshening (section 4.3.4 of RFC 7234). Unlike the parser's framing, the
    proxy compares header names exactly. */
module Headers {
  import opened Bytes
  import opened Messages
  import opened Options

  predicate HasName(hs: seq<Header>, name: string) {
    exists i :: 0 <= i < |hs| && hs[i].name == name
  }

  /** `response_get_header_value`: the first header of that name, or the empty string. */
  function HeaderValueOf(hs: seq<Header>, name: string): string {
    if hs == [] then "" else if hs[0].name == name then hs[0].value else HeaderValueOf(hs[1..], name)
  }

  method GetHeaderValue(hs: seq<Header>, name: string) returns (value: string)
    ensures value == HeaderValueOf(hs, name)
  {
    var i := 0;
    while i < |hs| && hs[i].name != name
      invariant i <= |hs| && HeaderValueOf(hs, name) == HeaderValueOf(hs[i..], name)
    {
      i := i + 1;
    }
    if i == |hs| {
      return "";
    }
    return hs[i].value;
  }

  /** `update_response`: overwrite the first header of that name, or append one. */
  function Update(hs: seq<Header>, name: string, value: string): seq<Header> {
    if hs == [] then [Header(name, value)]
    else if hs[0].name == name then [Header(name, value)] + hs[1..]
    else [hs[0]] + Update(hs[1..], name, value)
  }

  /** `freshen_headers`, one update for each header of the 304. */
  function Freshen(hs: seq<Header>, news: seq<Header>): seq<Header> {
    if news == [] then hs
    else
      var n := |news| - 1;
      Update(Freshen(hs, news[..n]), news[n].name, news[n].value)
  }

  lemma UpdateSkips(hs: seq<Header>, name: string, value: string)
    requires hs != [] && hs[0].name != name
    ensures Update(hs, name, value) == [hs[0]] + Update(hs[1..], name, value)
  {
  }

  lemma UpdateStops(hs: seq<Header>, name: string, value: string)
    requires hs != [] ==> hs[0].name == name
    ensures Update(hs, name, value) == [Header(name, value)] + if hs == [] then [] else hs[1..]
  {
  }

  lemma MoveOver(hs: seq<Header>, i: nat, more: seq<Header>)
    requires i < |hs|
    ensures hs[..i] + ([hs[i]] + more) == hs[..i + 1] + more
  {
  }

  method UpdateResponse(hs: seq<Header>, name: string, value: string) returns (updated: seq<Header>)
    ensures updated == Update(hs, name, value)
  {
    var i := 0;
    while i < |hs| && hs[i].name != name
      invariant i <= |hs| && Update(hs, name, value) == hs[..i] + Update(hs[i..], name, value)
    {
      hide Update;
      UpdateSkips(hs[i..], name, value);
      assert hs[i..][1..] == hs[i + 1..];
      MoveOver(hs, i, Update(hs[i + 1..], name, value));
      i := i + 1;
    }
    hide Update;
    updated := hs;
    if i == |hs| {
      updated := updated + [Header(name, value)];
    }
    UpdateStops(hs[i..], name, value);
    assert i < |hs| ==> hs[i..][1..] == hs[i + 1..];
    updated := updated[i := updated[i].(value := value)];
  }

  method FreshenHeaders(hs: seq<Header>, news: seq<Header>) returns (updated: seq<Header>)
    ensures updated == Freshen(hs, news)
  {
    updated := hs;
    for i := 0 to |news|
      invariant updated == Freshen(hs, news[..i])
    {
      assert news[..i + 1][..i] == news[..i];
      updated := UpdateResponse(updated, news[i].name, news[i].value);
    }
    assert news[..|news|] == news;
  }

  // ---- what freshening does to lookups and positions ---------------------------------------------

  predicate IsFirst(hs: seq<Header>, i: nat)
    requires i < |hs|
  {
    forall j :: 0 <= j < i ==> hs[j].name != hs[i].name
  }

  /** The last value a list of headers gives a name. */
  function LastValue(hs: seq<Header>, name: string): Option<string> {
    if hs == [] then None
    else if hs[|hs| - 1].name == name then Some(hs[|hs| - 1].value)
    else LastValue(hs[..|hs| - 1], name)
  }

  lemma NoHeaders(x: string)
    ensures HeaderValueOf([], x) == "" && !HasName([], x)
  {
  }

  lemma {:induction false} UpdateMeaning(hs: seq<Header>, name: string, value: string)
    ensures var r := Update(hs, name, value);
            && |r| == (if HasName(hs, name) then |hs| else |hs| + 1)
            && (forall i :: 0 <= i < |hs| ==>
                  r[i] == if hs[i].name == name && IsFirst(hs, i) then Header(name, value) else hs[i])
            && (!HasName(hs, name) ==> r[|hs|] == Header(name, value))
  {
    hide HasName;
    if hs == [] {
      NoHeaders(name);
    } else {
      var t := hs[1..];
      assert hs == [hs[0]] + t;
      HasNameCons(hs[0], t, name);
      if hs[0].name == name {
        UpdateStops(hs, name, value);
      } else {
        UpdateMeaning(t, name, value);
        UpdateSkips(hs, name, value);
        hide Update;
        var r, u := Update(hs, name, value), Update(t, name, value);
        assert forall i :: 0 < i < |r| ==> r[i] == u[i - 1];
        assert forall i :: 0 < i < |hs| && hs[i].name == name ==> (IsFirst(t, i - 1) <==> IsFirst(hs, i));
      }
    }
  }

  lemma {:induction false} LookupAfterUpdate(hs: seq<Header>, name: string, value: string, x: string)
    ensures HeaderValueOf(Update(hs, name, value), x) == if x == name then value else HeaderValueOf(hs, x)
    ensures HasName(Update(hs, name, value), x) <==> x == name || HasName(hs, x)
  {
    if hs == [] {
      assert Update(hs, name, value)[0].name == name;
    } else {
      var t, u := hs[1..], Update(hs[1..], name, value);
      LookupAfterUpdate(t, name, value, x);
      HasNameCons(hs[0], t, x);
      assert hs == [hs[0]] + t;
      assert ([hs[0]] + u)[1..] == u && ([Header(name, value)] + t)[1..] == t;
      HasNameCons(hs[0], u, x);
      HasNameCons(Header(name, value), t, x);
    }
  }

  lemma HasNameCons(h: Header, hs: seq<Header>, x: string)
    ensures HasName([h] + hs, x) <==> h.name == x || HasName(hs, x)
  {
    var l := [h] + hs;
    assert l[0] == h && forall i :: 0 <= i < |hs| ==> l[i + 1] == hs[i];
  }

  /** A name in the 304 now looks up to its last value there; every other name as before. */
  lemma {:induction false} LookupAfterFreshen(hs: seq<Header>, news: seq<Header>, name: string)
    ensures HeaderValueOf(Freshen(hs, news), name)
         == match LastValue(news, name) case Some(v) => v case None => HeaderValueOf(hs, name)
    ensures HasName(Freshen(hs, news), name) <==> LastValue(news, name).Some? || HasName(hs, name)
  {
    if news != [] {
      var n := |news| - 1;
      LookupAfterFreshen(hs, news[..n], name);
      LookupAfterUpdate(Freshen(hs, news[..n]), news[n].name, news[n].value, name);
    }
  }

  /** What stands at place `i` of a stored list after freshening. */
  function Freshened(hs: seq<Header>, news: seq<Header>, i: nat): Header
    requires i < |hs|
  {
    match LastValue(news, hs[i].name)
    case Some(v) => if IsFirst(hs, i) then hs[i].(value := v) else hs[i]
    case None => hs[i]
  }

  /** Old headers keep their places and names, and only the first of a name takes a new value. Each
      name that is new is appended once, with its last value. */
  predicate IsFreshened(hs: seq<Header>, news: seq<Header>, r: seq<Header>) {
    && |r| >= |hs|
    && (forall i :: 0 <= i < |hs| ==> r[i] == Freshened(hs, news, i))
    && (forall i :: |hs| <= i < |r| ==> IsFirst(r, i) && LastValue(news, r[i].name) == Some(r[i].value))
  }

  lemma {:induction false} FreshenMeaning(hs: seq<Header>, news: seq<Header>)
    ensures IsFreshened(hs, news, Freshen(hs, news))
  {
    if news != [] {
      var n := |news| - 1;
      FreshenMeaning(hs, news[..n]);
      FreshenStep(hs, news[..n], news[n], Freshen(hs, news[..n]));
      assert news == news[..n] + [news[n]];
    }
  }

  lemma FreshenStep(hs: seq<Header>, news: seq<Header>, h: Header, r: seq<Header>)
    requires IsFreshened(hs, news, r)
    ensures IsFreshened(hs, news + [h], Update(r, h.name, h.value))
  {
    var all, u := news + [h], Update(r, h.name, h.value);
    assert all[..|news|] == news;
    UpdateMeaning(r, h.name, h.value);
    hide Update;
    assert forall i :: 0 <= i < |r| ==> u[i].name == r[i].name;
    OldHeadersStep(hs, news, h, r);
    forall i | |hs| <= i < |u| ensures IsFirst(u, i) && LastValue(all, u[i].name) == Some(u[i].value) {
      if i < |r| {
        assert IsFirst(r, i);
      }
    }
  }

  lemma OldHeadersStep(hs: seq<Header>, news: seq<Header>, h: Header, r: seq<Header>)
    requires IsFreshened(hs, news, r)
    ensures |Update(r, h.name, h.value)| >= |hs|
    ensures forall i :: 0 <= i < |hs| ==> Update(r, h.name, h.value)[i] == Freshened(hs, news + [h], i)
  {
    assert (news + [h])[..|news|] == news;
    UpdateMeaning(r, h.name, h.value);
    hide Update;
    forall i | 0 <= i < |hs| ensures Update(r, h.name, h.value)[i] == Freshened(hs, news + [h], i) {
      assert forall j :: 0 <= j <= i ==> r[j].name == hs[j].name;
      assert IsFirst(r, i) <==> IsFirst(hs, i);
    }
  }

  /** Freshening is idempotent: the same 304 a second time changes nothing. */
  lemma FreshenIdempotent(hs: seq<Header>, news: seq<Header>)
    ensures Freshen(Freshen(hs, news), news) == Freshen(hs, news)
  {
    hide Update, Freshen;
    var r := Freshen(hs, news);
    var rr := Freshen(r, news);
    FreshenMeaning(hs, news);
    FreshenMeaning(r, news);
    forall i | 0 <= i < |r| ensures rr[i] == r[i] {
      if i < |hs| {
        assert forall j :: 0 <= j <= i ==> r[j].name == hs[j].name;
        assert IsFirst(r, i) <==> IsFirst(hs, i);
      }
    }
    if |rr| > |r| {
      LookupAfterFreshen(hs, news, rr[|r|].name);
    }
  }

  // ---- freshening and framing --------------------------------------------------------------------

  predicate IsFramingName(h: Header) {
    SameButCase(h.name, "Content-Length") || SameButCase(h.name, "Transfer-Encoding")
  }

  predicate NoFramingNames(hs: seq<Header>) {
    forall i :: 0 <= i < |hs| ==> !IsFramingName(hs[i])
  }

  lemma FramingIgnores(f: Framing, h: Header)
    requires !IsFramingName(h)
    ensures AddFraming(f, h) == f
  {
    NamesIgnoreCase(h);
  }

  lemma {:induction false} FramingIgnoresReplaced(hs: seq<Header>, i: nat, h: Header)
    requires i < |hs| && !IsFramingName(hs[i]) && !IsFramingName(h)
    ensures HeaderFraming(hs[i := h]) == HeaderFraming(hs)
  {
    hide AddFraming, IsFramingName;
    var n := |hs| - 1;
    var r := hs[i := h];
    if i == n {
      assert r[..n] == hs[..n];
      FramingIgnores(HeaderFraming(hs[..n]), h);
      FramingIgnores(HeaderFraming(hs[..n]), hs[n]);
    } else {
      assert r[..n] == hs[..n][i := h];
      FramingIgnoresReplaced(hs[..n], i, h);
    }
  }

  lemma FramingAfterUpdate(hs: seq<Header>, name: string, value: string)
    requires !IsFramingName(Header(name, value))
    ensures HeaderFraming(Update(hs, name, value)) == HeaderFraming(hs)
  {
    hide AddFraming, Update, HeaderFraming;
    var h, r := Header(name, value), Update(hs, name, value);
    UpdateMeaning(hs, name, value);
    if HasName(hs, name) {
      var i := FirstWithName(hs, name);
      assert r == hs[i := h];
      FramingIgnoresReplaced(hs, i, h);
    } else {
      assert r == hs + [h];
      FramingOfAppended(hs, h);
    }
  }

  lemma FramingOfAppended(hs: seq<Header>, h: Header)
    requires !IsFramingName(h)
    ensures HeaderFraming(hs + [h]) == HeaderFraming(hs)
  {
    assert (hs + [h])[..|hs|] == hs;
    FramingIgnores(HeaderFraming(hs), h);
  }

  lemma {:induction false} FirstWithName(hs: seq<Header>, name: string) returns (i: nat)
    requires HasName(hs, name)
    ensures i < |hs| && hs[i].name == name && IsFirst(hs, i)
    ensures forall j :: 0 <= j < |hs| && hs[j].name == name && IsFirst(hs, j) ==> j == i
  {
    i := 0;
    while hs[i].name != name
      invariant i < |hs| && forall j :: 0 <= j < i ==> hs[j].name != name
      invariant exists j :: i <= j < |hs| && hs[j].name == name
      decreases |hs| - i
    {
      i := i + 1;
    }
  }

  /** A 304 without framing headers, in any case, leaves the stored framing alone. */
  lemma {:induction false} FramingAfterFreshen(hs: seq<Header>, news: seq<Header>)
    requires NoFramingNames(news)
    ensures HeaderFraming(Freshen(hs, news)) == HeaderFraming(hs)
  {
    if news != [] {
      var n := |news| - 1;
      FramingAfterFreshen(hs, news[..n]);
      FramingAfterUpdate(Freshen(hs, news[..n]), news[n].name, news[n].value);
    }
  }

  lemma HeadersAfterFreshen(hs: seq<Header>, news: seq<Header>)
    requires AreHeaders(hs) && AreHeaders(news)
    ensures AreHeaders(Freshen(hs, news))
  {
    if news != [] {
      var n := |news| - 1;
      HeadersAfterFreshen(hs, news[..n]);
      UpdateMeaning(Freshen(hs, news[..n]), news[n].name, news[n].value);
      assert IsHeader(news[n]);
    }
  }
}
