/**
 The exact domain of the path round trip, for every path and every listing of its keys: which
 elements the parser reads back from what the printer writes, delimiters inside texts included.
 */
module PathDomain {
  import opened Wrappers
  import opened PyStr
  import opened GnmiPath
  import opened PathLaws

  // ---------------------------------------------------------------- what strip leaves

  lemma {:induction false} LStripIsSuffix(s: string, cs: set<char>)
    ensures var r := LStrip(s, cs); |r| <= |s| && r == s[|s| - |r|..]
  {
    if s != "" && s[0] in cs {
      LStripIsSuffix(s[1..], cs);
    }
  }

  /** Between two brackets strip leaves the body, or something shorter. */
  lemma StripBody(body: string)
    ensures var core := Strip("[" + body + "]", BRACKETS);
      |core| <= |body| && (|core| == |body| ==> core == body)
  {
    var s := "[" + body + "]";
    assert s[1..] == body + "]";
    var y := LStrip(body + "]", BRACKETS);
    LStripIsSuffix(body + "]", BRACKETS);
    if y != "" {
      assert y[|y| - 1] == ']';
    }
  }

  // ---------------------------------------------------------------- lengths

  function TotalLen(parts: seq<string>): nat {
    if parts == [] then 0 else TotalLen(parts[..|parts| - 1]) + |parts[|parts| - 1]|
  }

  lemma {:induction false} TotalLenCons(part: string, parts: seq<string>)
    ensures TotalLen([part] + parts) == |part| + TotalLen(parts)
  {
    var all := [part] + parts;
    if parts == [] {
      assert all[..0] == [];
    } else {
      TotalLenCons(part, parts[..|parts| - 1]);
      assert all[..|all| - 1] == [part] + parts[..|parts| - 1];
    }
  }

  lemma {:induction false} JoinLen(parts: seq<string>, sep: string)
    requires parts != []
    ensures |sep| == 1 ==> |Join(parts, sep)| == TotalLen(parts) + (|parts| - 1)
    ensures |sep| == 2 ==> |Join(parts, sep)| == TotalLen(parts) + 2 * (|parts| - 1)
  {
    assert parts == [parts[0]] + parts[1..];
    TotalLenCons(parts[0], parts[1..]);
    if |parts| > 1 {
      JoinLen(parts[1..], sep);
    }
  }

  // ---------------------------------------------------------------- keys need room

  ghost predicate Distinct(items: seq<(string, string)>) {
    forall i, j | 0 <= i < j < |items| :: items[i].0 != items[j].0
  }

  function Without(items: seq<(string, string)>, j: nat): seq<(string, string)>
    requires j < |items|
  {
    items[..j] + items[j + 1..]
  }

  lemma {:induction false} WithoutLen(items: seq<(string, string)>, j: nat)
    requires j < |items|
    ensures TotalLen(KvTexts(items)) == TotalLen(KvTexts(Without(items, j))) + |items[j].0| + 1 + |items[j].1|
  {
    var n := |items| - 1;
    assert KvTexts(items)[..n] == KvTexts(items[..n]);
    if j == n {
      assert Without(items, j) == items[..n];
    } else {
      var rest := Without(items, j);
      WithoutLen(items[..n], j);
      assert rest[..n - 1] == Without(items[..n], j) && rest[n - 1] == items[n];
      assert KvTexts(rest)[..n - 1] == KvTexts(rest[..n - 1]);
    }
  }

  ghost predicate Holds(keys: map<string, string>, items: seq<(string, string)>) {
    forall i | 0 <= i < |items| :: items[i].0 in keys && keys[items[i].0] == items[i].1
  }

  /** One piece gives the key of at most one item, and is then as long as that item's text. */
  lemma TakenBy(keys: map<string, string>, kv: string, items: seq<(string, string)>) returns (taken: Option<nat>)
    requires Distinct(items) && Holds(AddKey(keys, kv), items)
    ensures taken.None? ==> Holds(keys, items)
    ensures taken.Some? ==>
      var j := taken.value;
      && j < |items| && |kv| == |items[j].0| + 1 + |items[j].1|
      && Distinct(Without(items, j)) && Holds(keys, Without(items, j))
  {
    FindChar(kv, '=');
    if j :| '=' in kv && 0 <= j < |items| && items[j].0 == kv[..Find(kv, "=")] {
      assert items[j].1 == kv[Find(kv, "=") + 1..];
      taken := Some(j);
    } else {
      taken := None;
    }
  }

  /** Every key that the pieces hold takes a piece of its own, as long as the key's text. */
  lemma {:induction false} KeysNeedRoom(pieces: seq<string>, items: seq<(string, string)>)
    requires Distinct(items) && Holds(KeysOf(pieces), items)
    ensures |items| <= |pieces| && TotalLen(KvTexts(items)) <= TotalLen(pieces)
  {
    if pieces != [] {
      var rest, last := pieces[..|pieces| - 1], pieces[|pieces| - 1];
      var taken := TakenBy(KeysOf(rest), last, items);
      match taken
      case Some(j) =>
        WithoutLen(items, j);
        KeysNeedRoom(rest, Without(items, j));
      case None =>
        KeysNeedRoom(rest, items);
    } else {
      assert items == [];
    }
  }

  lemma {:induction false} MapOfHolds(items: seq<(string, string)>)
    requires Distinct(items)
    ensures Holds(MapOf(items), items)
  {
    if items != [] {
      MapOfHolds(items[..|items| - 1]);
    }
  }

  // ---------------------------------------------------------------- one element

  function Body(item: (string, string)): string {
    item.0 + "=" + item.1
  }

  /** A key and value that survive being written between brackets. */
  predicate ReadableItem(item: (string, string)) {
    && '=' !in item.0
    && Body(item)[0] !in BRACKETS && Body(item)[|Body(item)| - 1] !in BRACKETS
    && Find(Body(item), "][") == -1
  }

  /** An element that survives being printed; no brackets are excluded that do no harm. */
  predicate Readable(e: ListedElem) {
    && '/' !in ElemText(e)
    && (if e.items == [] then e.name != "" && ('[' !in e.name || ']' !in e.name)
        else |e.items| == 1 && '[' !in e.name && ReadableItem(e.items[0]))
  }

  /** The pieces the parser finds between the brackets around `body`. */
  function Pieces(body: string): seq<string> {
    SplitOn(Strip("[" + body + "]", BRACKETS), "][")
  }

  lemma PiecesFit(body: string)
    ensures TotalLen(Pieces(body)) + 2 * (|Pieces(body)| - 1) <= |body|
    ensures TotalLen(Pieces(body)) == |body| ==> Pieces(body) == [body]
  {
    var core := Strip("[" + body + "]", BRACKETS);
    StripBody(body);
    JoinSplit(core, "][");
    JoinLen(Pieces(body), "][");
  }

  lemma OneText(items: seq<(string, string)>)
    requires |items| == 1
    ensures Join(KvTexts(items), ",") == Body(items[0]) && TotalLen(KvTexts(items)) == |Body(items[0])|
  {
    assert TotalLen(KvTexts(items)[..0]) == 0;
  }

  /** Several keys never come back, for the commas between them leave no room for the pieces. */
  lemma OnlyOneKeyFits(items: seq<(string, string)>, pieces: seq<string>)
    requires items != [] && Distinct(items) && KeysOf(pieces) == MapOf(items)
    requires TotalLen(pieces) + 2 * (|pieces| - 1) <= |Join(KvTexts(items), ",")|
    ensures |items| == 1 && TotalLen(pieces) == |Join(KvTexts(items), ",")|
  {
    MapOfHolds(items);
    KeysNeedRoom(pieces, items);
    JoinLen(KvTexts(items), ",");
  }

  lemma CutsMakePieces(s: string, sep: string)
    requires sep != ""
    ensures Find(s, sep) != -1 ==> |SplitOn(s, sep)| > 1
  {
  }

  lemma KeysOfOne(kv: string)
    ensures KeysOf([kv]) == AddKey(map[], kv)
  {
    assert KeysOf([kv][..0]) == map[];
  }

  /** A single piece is the key and the value it was written from only without an early `=`. */
  lemma OnePieceKey(item: (string, string))
    requires KeysOf([Body(item)]) == map[item.0 := item.1]
    ensures '=' !in item.0
  {
    var body := Body(item);
    KeysOfOne(body);
    assert body[|item.0|] == '=';
    FindChar(body, '=');
    var i := Find(body, "=");
    assert KeysOf([body]) == map[body[..i] := body[i + 1..]];
    assert body[..i] in map[item.0 := item.1];
    assert item.0 == body[..i];
  }

  lemma ReadBackMeansReadable(items: seq<(string, string)>)
    requires items != [] && Distinct(items)
    requires KeysOf(Pieces(Join(KvTexts(items), ","))) == MapOf(items)
    ensures |items| == 1 && ReadableItem(items[0])
  {
    var body := Join(KvTexts(items), ",");
    PiecesFit(body);
    OnlyOneKeyFits(items, Pieces(body));
    OneText(items);
    MapOfOne(items);
    OnePieceKey(items[0]);
    WholePiece(body);
  }

  /** If strip and split leave the body whole, it has no brackets at its ends and no `][` inside. */
  lemma WholePiece(body: string)
    requires Pieces(body) == [body] && body != ""
    ensures body[0] !in BRACKETS && body[|body| - 1] !in BRACKETS && Find(body, "][") == -1
  {
    var core := Strip("[" + body + "]", BRACKETS);
    JoinSplit(core, "][");
    assert core == body;
    CutsMakePieces(body, "][");
  }

  lemma ReadableIsReadBack(item: (string, string))
    requires ReadableItem(item)
    ensures KeysOf(Pieces(Body(item))) == map[item.0 := item.1]
  {
    StripCore("[", Body(item), "]", BRACKETS);
    KeysOfOne(Body(item));
    AddKvText(map[], item.0, item.1);
  }

  /** The keys of a printed element are read back if and only if there is one, and it is readable. */
  lemma KeysReadBack(items: seq<(string, string)>)
    requires items != [] && Distinct(items)
    ensures KeysOf(Pieces(Join(KvTexts(items), ","))) == MapOf(items)
       <==> |items| == 1 && ReadableItem(items[0])
  {
    if KeysOf(Pieces(Join(KvTexts(items), ","))) == MapOf(items) {
      ReadBackMeansReadable(items);
    } else if |items| == 1 && ReadableItem(items[0]) {
      OneText(items);
      MapOfOne(items);
      ReadableIsReadBack(items[0]);
    }
  }

  /** The name is read back if and only if the printed text has no bracket in front of its own. */
  lemma NameReadBack(e: ListedElem)
    requires e.items != []
    ensures var q := ParseElement(ElemText(e));
      && (q.name == e.name <==> '[' !in e.name)
      && ('[' !in e.name ==> q.key == KeysOf(Pieces(Join(KvTexts(e.items), ","))))
  {
    var body := Join(KvTexts(e.items), ",");
    var text := ElemText(e);
    if '[' in e.name {
      assert text == e.name + ("[" + body + "]");
      FindCharStable(e.name, '[', "[" + body + "]");
      FindChar(e.name, '[');
      assert text[|text| - 1] == ']';
    } else {
      OpeningBracket(e.name, body);
    }
  }

  lemma PlainReadBack(name: string)
    ensures ParseElement(name) == PathElem(name, map[]) <==> '[' !in name || ']' !in name
  {
    FindChar(name, '[');
  }

  /** One printed element comes back if and only if it is readable. */
  lemma ElementReadBack(e: ListedElem, key: map<string, string>)
    requires Lists(e.items, key) && ElemText(e) != "" && '/' !in ElemText(e)
    ensures ParseElement(ElemText(e)) == PathElem(e.name, key) <==> Readable(e)
  {
    if e.items == [] {
      PlainReadBack(e.name);
    } else {
      NameReadBack(e);
      KeysReadBack(e.items);
    }
  }

  // ---------------------------------------------------------------- no slash is ever read

  const SLASH := {'/'}

  lemma {:induction false} SplitFree(s: string, sep: string, banned: set<char>)
    requires sep != "" && Free(s, banned)
    ensures forall i | 0 <= i < |SplitOn(s, sep)| :: Free(SplitOn(s, sep)[i], banned)
    decreases |s|
  {
    var i := Find(s, sep);
    if i != -1 {
      SplitFree(s[i + |sep|..], sep, banned);
    }
  }

  lemma {:induction false} SlashSplits(s: string)
    ensures forall i | 0 <= i < |SplitOn(s, "/")| :: Free(SplitOn(s, "/")[i], SLASH)
    decreases |s|
  {
    FindChar(s, '/');
    var i := Find(s, "/");
    if i != -1 {
      SlashSplits(s[i + 1..]);
    }
  }

  ghost predicate FreeKeys(keys: map<string, string>, banned: set<char>) {
    forall k | k in keys :: Free(k, banned) && Free(keys[k], banned)
  }

  lemma {:induction false} KeysFree(kvs: seq<string>, banned: set<char>)
    requires forall i | 0 <= i < |kvs| :: Free(kvs[i], banned)
    ensures FreeKeys(KeysOf(kvs), banned)
  {
    if kvs != [] {
      KeysFree(kvs[..|kvs| - 1], banned);
      FindChar(kvs[|kvs| - 1], '=');
    }
  }

  lemma ParsedFree(text: string, banned: set<char>)
    requires Free(text, banned)
    ensures var e := ParseElement(text); Free(e.name, banned) && FreeKeys(e.key, banned)
  {
    if '[' in text && ']' in text {
      FindChar(text, '[');
      var inner := text[Find(text, "[")..];
      LStripIsSuffix(inner, BRACKETS);
      var core := Strip(inner, BRACKETS);
      assert Free(core, banned);
      SplitFree(core, "][", banned);
      KeysFree(SplitOn(core, "]["), banned);
    }
  }

  lemma {:induction false} ElementsFree(parts: seq<string>, banned: set<char>)
    requires forall i | 0 <= i < |parts| :: Free(parts[i], banned)
    ensures forall i | 0 <= i < |Elements(parts)| ::
      Free(Elements(parts)[i].name, banned) && FreeKeys(Elements(parts)[i].key, banned)
  {
    if parts != [] {
      ElementsFree(parts[..|parts| - 1], banned);
      ParsedFree(parts[|parts| - 1], banned);
    }
  }

  lemma TextFree(e: ListedElem, key: map<string, string>)
    requires Lists(e.items, key) && Free(e.name, SLASH) && FreeKeys(key, SLASH)
    ensures '/' !in ElemText(e)
  {
    MapOfHolds(e.items);
    JoinFree(KvTexts(e.items), ",", SLASH);
    assert Free(ElemText(e), SLASH);
  }

  // ---------------------------------------------------------------- whole paths

  lemma {:induction false} NoneEmpty(parts: seq<string>)
    ensures |Elements(parts)| <= |parts|
    ensures |Elements(parts)| == |parts| ==> forall i | 0 <= i < |parts| :: parts[i] != ""
  {
    if parts != [] {
      NoneEmpty(parts[..|parts| - 1]);
    }
  }

  ghost predicate AllReadable(ls: seq<ListedElem>) {
    forall i | 0 <= i < |ls| :: Readable(ls[i])
  }

  lemma ReadableText(e: ListedElem)
    requires Readable(e)
    ensures ElemText(e) != "" && '/' !in ElemText(e)
  {
  }

  lemma ReadableComesBack(ls: seq<ListedElem>, es: seq<PathElem>)
    requires Listing(ls, es) && AllReadable(ls)
    ensures Nodes(PathText(ls)) == es
  {
    var texts := ElemTexts(ls);
    forall i | 0 <= i < |ls| ensures texts[i] != "" && '/' !in texts[i] && ParseElement(texts[i]) == es[i] {
      ReadableText(ls[i]);
      ElementReadBack(ls[i], es[i].key);
    }
    NodesOfTexts(texts);
    ElementsOfTexts(texts);
  }

  /** What came back was split at every slash, so nothing in the printed elements had one. */
  lemma BackMeansNoSlash(ls: seq<ListedElem>, es: seq<PathElem>)
    requires Listing(ls, es) && Nodes(PathText(ls)) == es
    ensures forall i | 0 <= i < |ls| :: '/' !in ElemTexts(ls)[i]
  {
    var parts := SplitOn(PathText(ls), "/");
    SlashSplits(PathText(ls));
    ElementsFree(parts, SLASH);
    forall i | 0 <= i < |ls| ensures '/' !in ElemTexts(ls)[i] {
      assert Elements(parts)[i] == es[i];
      TextFree(ls[i], es[i].key);
    }
  }

  lemma BackMeansReadable(ls: seq<ListedElem>, es: seq<PathElem>)
    requires Listing(ls, es) && Nodes(PathText(ls)) == es
    ensures AllReadable(ls)
  {
    var texts := ElemTexts(ls);
    BackMeansNoSlash(ls, es);
    if texts != [] {
      NodesOfSlash(Join(texts, "/"));
      SplitJoin(texts, "/");
      NoneEmpty(texts);
      ElementsOfTexts(texts);
      forall i | 0 <= i < |ls| ensures Readable(ls[i]) {
        assert texts[i] == ElemText(ls[i]);
        ElementReadBack(ls[i], es[i].key);
      }
    }
  }

  /**
   The round trip without any condition on the texts: printing a path and building it again with
   its own origin gives the path back if and only if it has no target and all of its elements are
   readable.
   */
  lemma RoundTripDomain(p: Path, ls: seq<ListedElem>, alnum: Alnum)
    requires Listing(ls, p.elem)
    ensures PathOf(PathText(ls), Some(p.origin), alnum) == p <==> p.target == "" && AllReadable(ls)
  {
    RootedHasNoPrefix(PathText(ls), alnum);
    PathElems(PathText(ls), Some(p.origin), alnum);
    if AllReadable(ls) {
      ReadableComesBack(ls, p.elem);
    }
    if Nodes(PathText(ls)) == p.elem {
      BackMeansReadable(ls, p.elem);
    }
  }

  /** On that domain two different paths never print the same. */
  lemma ReadableInjective(p: Path, ls: seq<ListedElem>, q: Path, ms: seq<ListedElem>)
    requires Listing(ls, p.elem) && AllReadable(ls) && Listing(ms, q.elem) && AllReadable(ms)
    requires p.origin == q.origin && p.target == q.target
    requires PathText(ls) == PathText(ms)
    ensures p == q
  {
    RoundTripDomain(p.(target := ""), ls, AsciiAlnum);
    RoundTripDomain(q.(target := ""), ms, AsciiAlnum);
  }

  /** Delimiter-free elements with at most one key are readable. */
  lemma CleanIsReadable(e: ListedElem)
    requires Clean(e) && |e.items| <= 1
    ensures Readable(e)
  {
    ParsePrinted(e);
    if e.items != [] {
      BodyWithoutBrackets(e.items[0].0, e.items[0].1);
    }
  }

  /** They are not the only ones: inside a value an opening bracket does no harm, unless it is last. */
  lemma OpenBracketSurvives(name: string, k: string, v: string)
    requires Free(name, {'/', '['}) && Free(k, DELIMITERS) && '=' !in k && Free(v, {'/', ']'})
    requires v == "" || v[|v| - 1] != '['
    ensures Readable(ListedElem(name, [(k, v)]))
  {
    var e := ListedElem(name, [(k, v)]);
    OneText(e.items);
    assert Free(ElemText(e), SLASH);
    assert ']' !in k && ']' !in v;
    assert ']' !in Body((k, v));
    FindNone(Body((k, v)), "][");
  }
}
