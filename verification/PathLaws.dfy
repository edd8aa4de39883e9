/** What parsing and printing gNMI paths preserve, and exactly where they stop being inverse. */
module PathLaws {
  import opened Wrappers
  import opened PyStr
  import opened GnmiPath

  // ---------------------------------------------------------------- elements of a text

  lemma {:induction false} ElementsAppend(a: seq<string>, b: seq<string>)
    ensures Elements(a + b) == Elements(a) + Elements(b)
  {
    if b == [] {
      assert a + b == a;
    } else {
      var n := |b| - 1;
      assert (a + b)[..|a + b| - 1] == a + b[..n];
      ElementsAppend(a, b[..n]);
    }
  }

  lemma {:induction false} ElementsOfTexts(texts: seq<string>)
    requires forall i | 0 <= i < |texts| :: texts[i] != ""
    ensures |Elements(texts)| == |texts|
    ensures forall i | 0 <= i < |texts| :: Elements(texts)[i] == ParseElement(texts[i])
  {
    if texts != [] {
      ElementsOfTexts(texts[..|texts| - 1]);
    }
  }

  lemma NodesAppend(a: string, b: string)
    ensures Nodes(a + "/" + b) == Nodes(a) + Nodes(b)
  {
    SplitAppend(a, '/', b);
    ElementsAppend(SplitOn(a, "/"), SplitOn(b, "/"));
  }

  lemma NodesOfSlash(b: string)
    ensures Nodes("/" + b) == Nodes(b)
  {
    assert "" + "/" + b == "/" + b;
    NodesAppend("", b);
    FindNone("", "/");
    assert Elements([""][..0]) == [];
  }

  lemma NodesDropSlash(path: string)
    ensures Nodes(DropSlash(path)) == Nodes(path)
  {
    if "/" <= path {
      assert path == "/" + path[1..];
      NodesOfSlash(path[1..]);
    }
  }

  /** The elements of a path: everything behind its origin prefix, or the whole text. */
  lemma PathElems(path: string, origin: Option<string>, alnum: Alnum)
    ensures PathOf(path, origin, alnum).elem
         == Nodes(if SplitOriginPrefix(path, alnum).Some? then SplitOriginPrefix(path, alnum).value.1 else path)
  {
    var split := SplitOriginPrefix(path, alnum);
    NodesDropSlash(if split.Some? then split.value.1 else path);
  }

  /** Text starting with a slash is never read as carrying an `origin:/` prefix. */
  lemma RootedHasNoPrefix(path: string, alnum: Alnum)
    requires "/" <= path
    ensures SplitOriginPrefix(path, alnum).None?
  {
    var idx := Find(path, ":/");
    assert idx > 0 ==> path[..idx][0] == '/';
  }

  /** Slash-free, nonempty element texts under a root come back as exactly those elements. */
  lemma NodesOfTexts(texts: seq<string>)
    requires forall i | 0 <= i < |texts| :: texts[i] != "" && '/' !in texts[i]
    ensures Nodes("/" + Join(texts, "/")) == Elements(texts)
  {
    NodesOfSlash(Join(texts, "/"));
    if texts == [] {
      FindNone("", "/");
      assert Elements([""][..0]) == [];
    } else {
      SplitJoin(texts, "/");
    }
  }

  // ---------------------------------------------------------------- parsing one printed element

  const BRACKETS := {'[', ']'}
  const DELIMITERS := {'/', '[', ']'}

  /** No name, key or value holds a path delimiter, no key holds `=`, the text is not empty. */
  ghost predicate Clean(e: ListedElem) {
    && Free(e.name, DELIMITERS)
    && (e.name != "" || e.items != [])
    && (forall i | 0 <= i < |e.items| ::
          Free(e.items[i].0, DELIMITERS) && '=' !in e.items[i].0 && Free(e.items[i].1, DELIMITERS))
  }

  ghost predicate AllClean(ls: seq<ListedElem>) {
    forall i | 0 <= i < |ls| :: Clean(ls[i])
  }

  lemma OpeningBracket(name: string, body: string)
    requires '[' !in name
    ensures var text := name + "[" + body + "]";
      && '[' in text && ']' in text && Find(text, "[") == |name|
      && text[..|name|] == name && text[|name|..] == "[" + body + "]"
  {
    var text := name + "[" + body + "]";
    var tail := body + "]";
    assert text == name + "[" + tail;
    FindAfter(name, "[", tail);
    BracketPlaces(name, body);
  }

  lemma BracketPlaces(name: string, body: string)
    ensures var text := name + "[" + body + "]";
      && text[|name|] == '[' && text[|text| - 1] == ']'
      && text[..|name|] == name && text[|name|..] == "[" + body + "]"
  {
  }

  lemma ParseBracketBody(name: string, body: string)
    requires '[' !in name
    requires body != "" && body[0] !in BRACKETS && body[|body| - 1] !in BRACKETS
    ensures ParseElement(name + "[" + body + "]") == PathElem(name, KeysOf(SplitOn(body, "][")))
  {
    OpeningBracket(name, body);
    StripCore("[", body, "]", BRACKETS);
  }

  lemma AddKvText(keys: map<string, string>, k: string, v: string)
    requires '=' !in k
    ensures AddKey(keys, k + "=" + v) == keys[k := v]
  {
    FindAfter(k, "=", v);
    var kv := k + "=" + v;
    assert kv[|k|] == '=';
    assert kv[..|k|] == k && kv[|k| + 1..] == v;
  }

  lemma {:induction false} KeysOfKvTexts(items: seq<(string, string)>)
    requires forall i | 0 <= i < |items| :: '=' !in items[i].0
    ensures KeysOf(KvTexts(items)) == MapOf(items)
  {
    if items != [] {
      var n := |items| - 1;
      KeysOfKvTexts(items[..n]);
      assert KvTexts(items)[..n] == KvTexts(items[..n]);
      AddKvText(MapOf(items[..n]), items[n].0, items[n].1);
    }
  }

  /** `[k1=v1][k2=v2]...`, how the text form of a gNMI path writes several keys of one element. */
  function Bracketed(items: seq<(string, string)>): string {
    if items == [] then ""
    else "[" + items[0].0 + "=" + items[0].1 + "]" + Bracketed(items[1..])
  }

  function BracketText(e: ListedElem): string {
    e.name + Bracketed(e.items)
  }

  lemma {:induction false} BracketedJoin(items: seq<(string, string)>)
    requires items != []
    ensures Bracketed(items) == "[" + Join(KvTexts(items), "][") + "]"
  {
    var kvs := KvTexts(items);
    if |items| > 1 {
      BracketedJoin(items[1..]);
      assert kvs[1..] == KvTexts(items[1..]);
      calc {
        Bracketed(items);
        "[" + items[0].0 + "=" + items[0].1 + "]" + ("[" + Join(kvs[1..], "][") + "]");
        "[" + (kvs[0] + "][" + Join(kvs[1..], "][")) + "]";
      }
    } else {
      assert Bracketed(items[1..]) == "";
    }
  }

  lemma PlainElement(name: string)
    requires Free(name, DELIMITERS)
    ensures ParseElement(name) == PathElem(name, map[])
  {
    assert '[' !in name;
  }

  lemma {:induction false} JoinEnds(kvs: seq<string>, sep: string)
    requires kvs != []
    requires forall i | 0 <= i < |kvs| :: kvs[i] != "" && Free(kvs[i], BRACKETS)
    ensures var body := Join(kvs, sep);
      body != "" && body[0] !in BRACKETS && body[|body| - 1] !in BRACKETS
  {
    if |kvs| > 1 {
      JoinEnds(kvs[1..], sep);
    }
  }

  /** Any number of bracketed keys, in any order, is read back as exactly that key map. */
  lemma ParseBracketed(e: ListedElem)
    requires Clean(e)
    ensures ParseElement(BracketText(e)) == PathElem(e.name, MapOf(e.items))
  {
    if e.items == [] {
      PlainElement(e.name);
      assert BracketText(e) == e.name;
    } else {
      var kvs := KvTexts(e.items);
      BracketedJoin(e.items);
      assert BracketText(e) == e.name + "[" + Join(kvs, "][") + "]";
      JoinEnds(kvs, "][");
      ParseBracketBody(e.name, Join(kvs, "]["));
      assert forall i | 0 <= i < |kvs| :: ']' !in kvs[i];
      SplitJoin(kvs, "][");
      KeysOfKvTexts(e.items);
    }
  }

  /** What the comma form says to the parser: one key, the rest of the list is its value. */
  function Collapsed(e: ListedElem): ListedElem {
    if e.items == [] then e
    else ListedElem(e.name, [(e.items[0].0, Join([e.items[0].1] + KvTexts(e.items)[1..], ","))])
  }

  /** The comma-joined keys and the collapsed single key are the same text. */
  lemma CollapsedText(e: ListedElem)
    requires e.items != []
    ensures var (k, v) := Collapsed(e).items[0]; Join(KvTexts(e.items), ",") == k + "=" + v
    ensures ElemText(Collapsed(e)) == ElemText(e)
  {
    var kvs := KvTexts(e.items);
    var (k, v) := Collapsed(e).items[0];
    var vs := [e.items[0].1] + kvs[1..];
    JoinPrepend(k + "=", vs, ",");
    assert vs[1..] == kvs[1..] && k + "=" + vs[0] == kvs[0];
    assert [kvs[0]] + kvs[1..] == kvs;
    assert KvTexts(Collapsed(e).items) == [k + "=" + v];
  }

  lemma CollapsedFree(e: ListedElem)
    requires Clean(e) && e.items != []
    ensures var (k, v) := Collapsed(e).items[0]; Free(k, DELIMITERS) && '=' !in k && Free(v, DELIMITERS)
  {
    var vs := [e.items[0].1] + KvTexts(e.items)[1..];
    JoinFree(vs, ",", DELIMITERS);
  }

  lemma ParseOneKey(name: string, k: string, v: string)
    requires '[' !in name && '=' !in k
    requires var body := k + "=" + v;
      body[0] !in BRACKETS && body[|body| - 1] !in BRACKETS && Find(body, "][") == -1
    ensures ParseElement(name + "[" + (k + "=" + v) + "]") == PathElem(name, map[k := v])
  {
    var body := k + "=" + v;
    ParseBracketBody(name, body);
    AddKvText(map[], k, v);
    assert KeysOf([body][..0]) == map[];
  }

  lemma BodyWithoutBrackets(k: string, v: string)
    requires Free(k, BRACKETS) && Free(v, BRACKETS)
    ensures var body := k + "=" + v;
      body[0] !in BRACKETS && body[|body| - 1] !in BRACKETS && Find(body, "][") == -1
  {
    var body := k + "=" + v;
    assert Free(body, BRACKETS);
    FindNone(body, "][");
  }

  lemma MapOfOne(items: seq<(string, string)>)
    requires |items| == 1
    ensures MapOf(items) == map[items[0].0 := items[0].1]
  {
    assert MapOf(items[..0]) == map[];
  }

  lemma ParsePrinted(e: ListedElem)
    requires Clean(e)
    ensures ParseElement(ElemText(e)) == PathElem(e.name, MapOf(Collapsed(e).items))
    ensures ElemText(Collapsed(e)) == ElemText(e)
    ensures ElemText(e) != "" && '/' !in ElemText(e)
  {
    if e.items == [] {
      PlainElement(e.name);
    } else {
      var (k, v) := Collapsed(e).items[0];
      CollapsedText(e);
      CollapsedFree(e);
      MapOfOne(Collapsed(e).items);
      ParseKeyed(e.name, k, v);
    }
  }

  lemma ParseKeyed(name: string, k: string, v: string)
    requires Free(name, DELIMITERS) && Free(k, DELIMITERS) && '=' !in k && Free(v, DELIMITERS)
    ensures var text := name + "[" + (k + "=" + v) + "]";
      ParseElement(text) == PathElem(name, map[k := v]) && text != "" && '/' !in text
  {
    BodyWithoutBrackets(k, v);
    ParseOneKey(name, k, v);
    assert '/' !in k + "=" + v;
  }

  lemma NothingToAdd(kvs: seq<string>, keys: map<string, string>)
    requires KeysOf(kvs) == keys
    ensures forall kv | '=' !in kv :: KeysOf(kvs + [kv]) == keys
  {
    forall kv | '=' !in kv ensures KeysOf(kvs + [kv]) == keys {
      assert (kvs + [kv])[..|kvs|] == kvs;
    }
  }

  /** A bracketed piece without `=` is not a key; the element keeps its name and loses the piece. */
  lemma PieceWithoutKey(e: ListedElem, piece: string)
    requires Clean(e) && Free(piece, DELIMITERS) && piece != "" && '=' !in piece
    ensures ParseElement(BracketText(e) + "[" + piece + "]") == PathElem(e.name, MapOf(e.items))
  {
    var all := KvTexts(e.items) + [piece];
    KeysOfKvTexts(e.items);
    NothingToAdd(KvTexts(e.items), MapOf(e.items));
    WithPiece(e, piece);
    PiecesSplit(e, piece);
    ParseBracketBody(e.name, Join(all, "]["));
  }

  lemma PiecesSplit(e: ListedElem, piece: string)
    requires Clean(e) && Free(piece, DELIMITERS) && piece != ""
    ensures var all := KvTexts(e.items) + [piece];
      var body := Join(all, "][");
      && body != "" && body[0] !in BRACKETS && body[|body| - 1] !in BRACKETS
      && SplitOn(body, "][") == all
  {
    var all := KvTexts(e.items) + [piece];
    JoinEnds(all, "][");
    assert forall i | 0 <= i < |all| :: ']' !in all[i];
    SplitJoin(all, "][");
  }

  lemma WithPiece(e: ListedElem, piece: string)
    ensures BracketText(e) + "[" + piece + "]" == e.name + "[" + Join(KvTexts(e.items) + [piece], "][") + "]"
  {
    var kvs := KvTexts(e.items);
    if e.items == [] {
      assert kvs + [piece] == [piece];
      assert BracketText(e) == e.name;
    } else {
      BracketedJoin(e.items);
      JoinSnoc(kvs, piece, "][");
      Reassociate(e.name, Join(kvs, "]["), piece);
    }
  }

  lemma Reassociate(name: string, body: string, piece: string)
    ensures name + ("[" + body + "]") + "[" + piece + "]" == name + "[" + (body + "][" + piece) + "]"
  {
    assert "]" + "[" == "][";
  }

  lemma {:induction false} JoinSnoc(parts: seq<string>, part: string, sep: string)
    requires parts != []
    ensures Join(parts + [part], sep) == Join(parts, sep) + sep + part
  {
    var all := parts + [part];
    if |parts| == 1 {
      assert all[1..] == [part];
    } else {
      JoinSnoc(parts[1..], part, sep);
      assert all[1..] == parts[1..] + [part];
    }
  }

  /** A repeated key keeps its last value; this is what `MapOf` means on repeated keys. */
  lemma {:induction false} LastValueWins(items: seq<(string, string)>, i: nat)
    requires i < |items| && forall j | i < j < |items| :: items[j].0 != items[i].0
    ensures items[i].0 in MapOf(items) && MapOf(items)[items[i].0] == items[i].1
  {
    if i < |items| - 1 {
      LastValueWins(items[..|items| - 1], i);
    }
  }

  // ---------------------------------------------------------------- whole paths

  function CollapsedAll(ls: seq<ListedElem>): seq<ListedElem> {
    seq(|ls|, i requires 0 <= i < |ls| => Collapsed(ls[i]))
  }

  /** Printing a clean path and reading it back gives the collapsed elements, in order. */
  lemma PrintThenParse(ls: seq<ListedElem>, origin: Option<string>, alnum: Alnum)
    requires AllClean(ls)
    ensures var es := PathOf(PathText(ls), origin, alnum).elem;
      && |es| == |ls|
      && forall i | 0 <= i < |ls| :: es[i] == PathElem(ls[i].name, MapOf(Collapsed(ls[i]).items))
    ensures PathText(CollapsedAll(ls)) == PathText(ls)
  {
    var texts := ElemTexts(ls);
    forall i | 0 <= i < |ls|
      ensures ParseElement(texts[i]) == PathElem(ls[i].name, MapOf(Collapsed(ls[i]).items))
      ensures texts[i] != "" && '/' !in texts[i] && ElemTexts(CollapsedAll(ls))[i] == texts[i]
    {
      ParsePrinted(ls[i]);
    }
    RootedHasNoPrefix(PathText(ls), alnum);
    PathElems(PathText(ls), origin, alnum);
    NodesOfTexts(texts);
    ElementsOfTexts(texts);
    assert ElemTexts(CollapsedAll(ls)) == texts;
  }

  lemma PrintedHasNoOriginPrefix(ls: seq<ListedElem>, alnum: Alnum)
    ensures SplitOriginPrefix(PathText(ls), alnum).None?
  {
    RootedHasNoPrefix(PathText(ls), alnum);
  }

  lemma {:induction false} MapOfKeys(items: seq<(string, string)>)
    ensures forall k :: k in MapOf(items) <==> exists i :: 0 <= i < |items| && items[i].0 == k
  {
    if items != [] {
      var n := |items| - 1;
      MapOfKeys(items[..n]);
      forall k ensures k in MapOf(items) <==> exists i :: 0 <= i < |items| && items[i].0 == k {
        if k in MapOf(items[..n]) {
          var i :| 0 <= i < n && items[..n][i].0 == k;
          assert items[i].0 == k;
        }
        if i :| 0 <= i < |items| && items[i].0 == k {
          assert i < n ==> items[..n][i].0 == k;
        }
      }
    }
  }

  lemma {:induction false} MapOfSize(items: seq<(string, string)>)
    requires forall i, j | 0 <= i < j < |items| :: items[i].0 != items[j].0
    ensures |MapOf(items)| == |items|
  {
    if items != [] {
      var n := |items| - 1;
      MapOfSize(items[..n]);
      MapOfKeys(items[..n]);
      var before := MapOf(items[..n]);
      assert items[n].0 !in before;
      assert before[items[n].0 := items[n].1].Keys == before.Keys + {items[n].0};
    }
  }

  lemma ListsSize(items: seq<(string, string)>, m: map<string, string>)
    requires Lists(items, m)
    ensures |items| == |m|
  {
    MapOfSize(items);
  }

  /** A one-entry dictionary has only one listing. */
  lemma ListsSingle(items: seq<(string, string)>, k: string, v: string)
    requires Lists(items, map[k := v])
    ensures items == [(k, v)]
  {
    ListsSize(items, map[k := v]);
    MapOfOne(items);
    assert items[0].0 in map[k := v];
    assert map[k := v][items[0].0] == items[0].1;
  }

  lemma ListsEmpty(items: seq<(string, string)>)
    requires Lists(items, map[])
    ensures items == []
  {
    ListsSize(items, map[]);
  }

  /** Every key map can be listed, so statements about all listings are never empty. */
  lemma {:induction false} ListingExists(m: map<string, string>) returns (items: seq<(string, string)>)
    ensures Lists(items, m)
    decreases |m|
  {
    if m == map[] {
      items := [];
    } else {
      var k :| k in m;
      var rest := map x | x in m && x != k :: m[x];
      assert rest.Keys == m.Keys - {k};
      var before := ListingExists(rest);
      MapOfKeys(before);
      items := before + [(k, m[k])];
      assert items[..|items| - 1] == before;
      assert rest[k := m[k]] == m;
      forall i, j | 0 <= i < j < |items| ensures items[i].0 != items[j].0 {
        assert items[i] == before[i] && before[i].0 in MapOf(before);
      }
    }
  }

  // ---------------------------------------------------------------- main theorems

  function BracketTexts(ls: seq<ListedElem>): (ts: seq<string>)
    ensures |ts| == |ls|
  {
    seq(|ls|, i requires 0 <= i < |ls| => BracketText(ls[i]))
  }

  /** Brackets never contain a slash. */
  lemma {:induction false} BracketedFree(items: seq<(string, string)>)
    requires forall i | 0 <= i < |items| :: Free(items[i].0, DELIMITERS) && Free(items[i].1, DELIMITERS)
    ensures '/' !in Bracketed(items)
  {
    if items != [] {
      BracketedFree(items[1..]);
    }
  }

  lemma BracketTextsParse(es: seq<PathElem>, ls: seq<ListedElem>)
    requires Listing(ls, es) && AllClean(ls)
    ensures forall i | 0 <= i < |ls| ::
      ParseElement(BracketTexts(ls)[i]) == es[i] && BracketTexts(ls)[i] != "" && '/' !in BracketTexts(ls)[i]
  {
    forall i | 0 <= i < |ls|
      ensures ParseElement(BracketText(ls[i])) == es[i] && BracketText(ls[i]) != "" && '/' !in BracketText(ls[i])
    {
      ParseBracketed(ls[i]);
      BracketedFree(ls[i].items);
    }
  }

  /**
   For any key maps of any size and any listing order, the path text with one bracket pair per
   key is read back as exactly the elements that were written.
   */
  lemma ParseAfterBracketPrint(es: seq<PathElem>, ls: seq<ListedElem>, origin: Option<string>, alnum: Alnum)
    requires Listing(ls, es) && AllClean(ls)
    ensures PathOf("/" + Join(BracketTexts(ls), "/"), origin, alnum).elem == es
  {
    var texts := BracketTexts(ls);
    BracketTextsParse(es, ls);
    var text := "/" + Join(texts, "/");
    RootedHasNoPrefix(text, alnum);
    PathElems(text, origin, alnum);
    NodesOfTexts(texts);
    ElementsOfTexts(texts);
  }

  ghost predicate SingleKeyed(es: seq<PathElem>) {
    forall i | 0 <= i < |es| :: |es[i].key| <= 1
  }

  lemma CollapsedRecovers(e: ListedElem, key: map<string, string>)
    requires Clean(e) && Lists(e.items, key)
    ensures MapOf(Collapsed(e).items) == key <==> |key| <= 1
  {
    ListsSize(e.items, key);
    if e.items != [] {
      var c := Collapsed(e).items;
      MapOfOne(c);
      if |e.items| == 1 {
        assert [e.items[0].1] + KvTexts(e.items)[1..] == [e.items[0].1];
        assert c == e.items;
      } else {
        assert |MapOf(c)| == 1;
      }
    }
  }

  /**
   Printing a delimiter-free path and building it again with its own origin gives the path
   back if and only if it has no target and at most one key per element.
   */
  lemma RoundTrip(p: Path, ls: seq<ListedElem>, alnum: Alnum)
    requires Listing(ls, p.elem) && AllClean(ls)
    ensures PathOf(PathText(ls), Some(p.origin), alnum) == p
       <==> p.target == "" && SingleKeyed(p.elem)
  {
    PrintThenParse(ls, Some(p.origin), alnum);
    var q := PathOf(PathText(ls), Some(p.origin), alnum);
    forall i | 0 <= i < |ls| ensures q.elem[i] == p.elem[i] <==> |p.elem[i].key| <= 1 {
      CollapsedRecovers(ls[i], p.elem[i].key);
    }
    if SingleKeyed(p.elem) {
      assert q.elem == p.elem;
    }
  }

  /** On that domain two different paths never print the same. */
  lemma PrintInjective(p: Path, ls: seq<ListedElem>, q: Path, ms: seq<ListedElem>)
    requires Listing(ls, p.elem) && AllClean(ls) && SingleKeyed(p.elem)
    requires Listing(ms, q.elem) && AllClean(ms) && SingleKeyed(q.elem)
    requires p.origin == q.origin && p.target == q.target
    requires PathText(ls) == PathText(ms)
    ensures p == q
  {
    RoundTrip(p.(target := ""), ls, AsciiAlnum);
    RoundTrip(q.(target := ""), ms, AsciiAlnum);
  }

  /** Off that domain they can: a two-key element and a one-key element with the same text. */
  lemma TwoKeyCollision()
    ensures var two := ListedElem("e", [("a", "1"), ("b", "2")]);
      var one := ListedElem("e", [("a", "1,b=2")]);
      && Clean(two) && Clean(one)
      && Lists(two.items, map["a" := "1", "b" := "2"]) && Lists(one.items, map["a" := "1,b=2"])
      && PathText([two]) == PathText([one])
  {
    var two := ListedElem("e", [("a", "1"), ("b", "2")]);
    var one := ListedElem("e", [("a", "1,b=2")]);
    assert two.items[..1] == [("a", "1")] && two.items[..1][..0] == [] && one.items[..0] == [];
    assert MapOf(two.items[..1]) == map["a" := "1"];
    var kvs := KvTexts(two.items);
    assert "a" + "=" + "1" == "a=1" && "b" + "=" + "2" == "b=2" && "a" + "=" + "1,b=2" == "a=1,b=2";
    assert kvs == ["a=1", "b=2"] && kvs[1..] == ["b=2"];
    assert KvTexts(one.items) == ["a=1,b=2"];
    assert ElemText(two) == "e[a=1,b=2]" == ElemText(one);
    assert ElemTexts([two]) == ElemTexts([one]);
  }

  /**
   A printed path is a fixed point of print-after-parse, for any number of keys and any listing
   order on either side, even where the key map itself is not recovered.
   */
  lemma PrintedIsFixedPoint(ls: seq<ListedElem>, origin: Option<string>, alnum: Alnum, again: seq<ListedElem>)
    requires AllClean(ls)
    requires Listing(again, PathOf(PathText(ls), origin, alnum).elem)
    ensures PathText(again) == PathText(ls)
  {
    PrintThenParse(ls, origin, alnum);
    forall i | 0 <= i < |ls| ensures again[i] == CollapsedAll(ls)[i] {
      var c := Collapsed(ls[i]).items;
      if c == [] {
        ListsEmpty(again[i].items);
      } else {
        MapOfOne(c);
        ListsSingle(again[i].items, c[0].0, c[0].1);
      }
    }
    assert again == CollapsedAll(ls);
  }

  // ---------------------------------------------------------------- the origin:/path form

  /** A character of an origin name: an ASCII letter or digit, `-`, `_`, or alphanumeric beyond ASCII. */
  ghost predicate NameChar(c: char, alnum: Alnum) {
    || 'a' <= c <= 'z' || 'A' <= c <= 'Z' || '0' <= c <= '9' || c == '-' || c == '_'
    || (c >= 128 as char && alnum(c))
  }

  ghost predicate Identifier(o: string, alnum: Alnum) {
    o != "" && forall i | 0 <= i < |o| :: NameChar(o[i], alnum)
  }

  /** The parser's own test accepts exactly the identifiers. */
  lemma IdentifiersAccepted(o: string, alnum: Alnum)
    ensures Identifier(o, alnum) <==> o != "" && OriginName(o, alnum)
  {
    forall i | 0 <= i < |o|
      ensures NameChar(o[i], alnum) <==> alnum(o[i]) || o[i] == '-' || o[i] == '_'
    {
      if o[i] < 128 as char {
        assert alnum(o[i]) == AsciiAlnum(o[i]);
      }
    }
  }

  lemma IdentifierFree(o: string, alnum: Alnum)
    requires Identifier(o, alnum)
    ensures Free(o, {'/', ':', '[', ']'})
  {
  }

  /** An identifier written in front of a rooted path is split off again. */
  lemma IdentifierSplits(o: string, rooted: string, alnum: Alnum)
    requires Identifier(o, alnum) && "/" <= rooted
    ensures SplitOriginPrefix(o + ":" + rooted, alnum) == Some((o, rooted))
  {
    var s := o + ":" + rooted;
    IdentifierFree(o, alnum);
    IdentifiersAccepted(o, alnum);
    assert ':' !in o && '/' !in o && '[' !in o;
    assert s == o + ":/" + rooted[1..];
    FindAfter(o, ":/", rooted[1..]);
    assert s[..|o|] == o && s[|o| + 1..] == rooted;
  }

  /**
   Exactly which texts carry which prefix: an identifier, a colon, and a path from a slash on. The
   identifier is spelled out: letters, digits, `-`, `_`, and what `isalnum` adds beyond ASCII.
   */
  lemma PrefixExactly(path: string, o: string, rest: string, alnum: Alnum)
    ensures SplitOriginPrefix(path, alnum) == Some((o, rest))
       <==> path == o + ":" + rest && "/" <= rest && o != ""
            && forall i | 0 <= i < |o| ::
                 || 'a' <= o[i] <= 'z' || 'A' <= o[i] <= 'Z' || '0' <= o[i] <= '9' || o[i] == '-' || o[i] == '_'
                 || (o[i] >= 128 as char && alnum(o[i]))
  {
    if SplitOriginPrefix(path, alnum) == Some((o, rest)) {
      PrefixMeans(path, alnum);
    } else if path == o + ":" + rest && "/" <= rest && Identifier(o, alnum) {
      IdentifierSplits(o, rest, alnum);
    }
  }

  lemma PrefixMeans(path: string, alnum: Alnum)
    requires SplitOriginPrefix(path, alnum).Some?
    ensures var (o, rest) := SplitOriginPrefix(path, alnum).value;
      path == o + ":" + rest && "/" <= rest && Identifier(o, alnum)
  {
    var i := Find(path, ":/");
    IdentifiersAccepted(path[..i], alnum);
    assert path[i] == path[i..i + 2][0] && path[i + 1] == path[i..i + 2][1];
    assert path == path[..i] + ":" + path[i + 1..];
  }

  /** In particular `o:/x` is split at its colon if and only if `o` is such a name. */
  lemma AsciiPrefix(o: string, x: string, alnum: Alnum)
    requires forall i | 0 <= i < |o| :: o[i] < 128 as char && o[i] != ':'
    ensures SplitOriginPrefix(o + ":/" + x, alnum) == Some((o, "/" + x))
       <==> o != "" && forall i | 0 <= i < |o| ::
              'a' <= o[i] <= 'z' || 'A' <= o[i] <= 'Z' || '0' <= o[i] <= '9' || o[i] == '-' || o[i] == '_'
  {
    PrefixExactly(o + ":/" + x, o, "/" + x, alnum);
    assert o + ":/" + x == o + ":" + ("/" + x);
  }

  /**
   With its origin written in front, the printed path needs no origin argument: the text alone is
   read back as the same path, under the same exact condition as above.
   */
  lemma OriginTextRoundTrip(p: Path, ls: seq<ListedElem>, alnum: Alnum)
    requires Listing(ls, p.elem) && AllClean(ls) && Identifier(p.origin, alnum)
    ensures PathOf(p.origin + ":" + PathText(ls), None, alnum) == p
       <==> p.target == "" && SingleKeyed(p.elem)
  {
    var text := PathText(ls);
    IdentifierSplits(p.origin, text, alnum);
    PathElems(p.origin + ":" + text, None, alnum);
    RootedHasNoPrefix(text, alnum);
    PathElems(text, Some(p.origin), alnum);
    RoundTrip(p, ls, alnum);
  }

  // ---------------------------------------------------------------- joining paths

  /** A text that is nothing but `origin:`; a slash behind it turns it into an origin prefix. */
  ghost predicate BareOrigin(a: string, alnum: Alnum) {
    |a| > 1 && a[|a| - 1] == ':' && Identifier(a[..|a| - 1], alnum)
  }

  lemma FindPairStable(a: string, b: string)
    ensures Find(a, ":/") != -1 ==> Find(a + "/" + b, ":/") == Find(a, ":/")
    ensures Find(a, ":/") == -1 && a != "" && a[|a| - 1] == ':' ==> Find(a + "/" + b, ":/") == |a| - 1
    ensures Find(a, ":/") == -1 && (a == "" || a[|a| - 1] != ':')
        ==> var g := Find(a + "/" + b, ":/"); g == -1 || g > |a|
  {
    var s := a + "/" + b;
    var f := Find(a, ":/");
    forall j | 0 <= j <= |a| - 2 ensures MatchesAt(s, ":/", j) <==> MatchesAt(a, ":/", j) {
      assert s[j..j + 2] == a[j..j + 2];
    }
    if a != "" {
      var l := |a| - 1;
      assert s[l..l + 2] == [a[l], '/'];
      assert MatchesAt(s, ":/", l) <==> a[l] == ':';
    }
    MatchHead(s, ":/");
    assert s[|a|] == '/';
  }

  /** Case one of the joining law: the first `:/` lies inside `a`. */
  lemma JoinInnerPrefix(a: string, b: string, alnum: Alnum)
    requires Find(a, ":/") != -1
    ensures !BareOrigin(a, alnum)
    ensures var s := a + "/" + b;
      && SplitOriginPrefix(s, alnum).Some? == SplitOriginPrefix(a, alnum).Some?
      && (SplitOriginPrefix(s, alnum).Some? ==>
            SplitOriginPrefix(s, alnum).value.1 == SplitOriginPrefix(a, alnum).value.1 + "/" + b)
  {
    var s := a + "/" + b;
    var f := Find(a, ":/");
    FindPairStable(a, b);
    assert s[..f] == a[..f];
    assert s[f + 1..] == a[f + 1..] + "/" + b;
    assert a[f + 1] == a[f..f + 2][1] == '/';
    assert a[|a| - 1] == ':' ==> f + 1 < |a| - 1 && a[..|a| - 1][f + 1] == '/';
  }

  /** Case two: `a` ends in a colon, so the inserted slash completes the first `:/`. */
  lemma JoinColon(a: string, b: string, alnum: Alnum)
    requires Find(a, ":/") == -1 && a != "" && a[|a| - 1] == ':'
    ensures var split := SplitOriginPrefix(a + "/" + b, alnum);
      && (split.Some? <==> BareOrigin(a, alnum))
      && (split.Some? ==> split.value.1 == "/" + b && |Nodes(a)| == 1)
  {
    var s := a + "/" + b;
    var l := |a| - 1;
    FindPairStable(a, b);
    assert s[..l] == a[..l] && s[l + 1..] == "/" + b;
    IdentifiersAccepted(a[..l], alnum);
    if Identifier(a[..l], alnum) {
      IdentifierFree(a[..l], alnum);
      assert '/' !in a[..l] && '[' !in a[..l];
    }
    if BareOrigin(a, alnum) {
      assert a == a[..l] + ":" && '/' !in a;
      FindNone(a, "/");
      assert Elements([a][..0]) == [];
    }
  }

  /** Case three: the joined text has no `:/` before the inserted slash. */
  lemma JoinPlain(a: string, b: string, alnum: Alnum)
    requires Find(a, ":/") == -1 && (a == "" || a[|a| - 1] != ':')
    ensures SplitOriginPrefix(a + "/" + b, alnum).None?
  {
    var s := a + "/" + b;
    FindPairStable(a, b);
    var g := Find(s, ":/");
    assert g != -1 ==> s[..g][|a|] == '/';
  }

  /**
   Building `a/b` names the elements of `a` followed by those of `b`, whatever slashes either
   side repeats, if and only if `a` is not a bare `origin:`; `b` must not carry a prefix itself.
   */
  lemma JoinNamesSameNodes(a: string, b: string, origin: Option<string>, alnum: Alnum)
    requires SplitOriginPrefix(b, alnum).None?
    ensures PathOf(a + "/" + b, origin, alnum).elem
         == PathOf(a, origin, alnum).elem + PathOf(b, origin, alnum).elem
       <==> !BareOrigin(a, alnum)
  {
    PathElems(a + "/" + b, origin, alnum);
    PathElems(a, origin, alnum);
    PathElems(b, origin, alnum);
    NodesAppend(a, b);
    if Find(a, ":/") != -1 {
      JoinInnerPrefix(a, b, alnum);
      if SplitOriginPrefix(a, alnum).Some? {
        NodesAppend(SplitOriginPrefix(a, alnum).value.1, b);
      }
    } else if a != "" && a[|a| - 1] == ':' {
      JoinColon(a, b, alnum);
      NodesOfSlash(b);
    } else {
      JoinPlain(a, b, alnum);
    }
  }

  /** A bare origin in front is one element apart and none once joined. */
  lemma BareOriginSwallowed(a: string, b: string, origin: Option<string>, alnum: Alnum)
    requires BareOrigin(a, alnum) && SplitOriginPrefix(b, alnum).None?
    ensures |PathOf(a, origin, alnum).elem| == 1
    ensures PathOf(a + "/" + b, origin, alnum).elem == PathOf(b, origin, alnum).elem
  {
    var o := a[..|a| - 1];
    assert a == o + ":";
    IdentifierFree(o, alnum);
    assert ':' !in o && '/' !in a;
    NoPairWithoutSlash(a);
    JoinColon(a, b, alnum);
    PathElems(a, origin, alnum);
    PathElems(b, origin, alnum);
    PathElems(a + "/" + b, origin, alnum);
    NodesOfSlash(b);
  }

  lemma NoPairWithoutSlash(a: string)
    requires '/' !in a
    ensures Find(a, ":/") == -1
  {
    MatchLast(a, ":/");
  }

  lemma PlainNode(b: string, origin: Option<string>, alnum: Alnum)
    requires Free(b, {'/', '['}) && b != ""
    ensures PathOf(b, origin, alnum).elem == [PathElem(b, map[])]
  {
    NoPairWithoutSlash(b);
    PathElems(b, origin, alnum);
    FindNone(b, "/");
    assert Elements([b][..0]) == [];
    assert '[' !in b;
  }

  /** Such as the origin `x` and the name `y`: `x:` and `y` are two elements apart, `x:/y` is one. */
  lemma BareOriginExample(o: string, name: string, origin: Option<string>, alnum: Alnum)
    requires Identifier(o, alnum) && Free(name, {'/', '['}) && name != ""
    ensures |PathOf(o + ":", origin, alnum).elem + PathOf(name, origin, alnum).elem| == 2
    ensures PathOf(o + ":" + "/" + name, origin, alnum).elem == [PathElem(name, map[])]
  {
    NoPairWithoutSlash(name);
    assert (o + ":")[..|o|] == o;
    BareOriginSwallowed(o + ":", name, origin, alnum);
    PlainNode(name, origin, alnum);
  }

  // ---------------------------------------------------------------- namespaces

  /** A relative path without an origin prefix gets the origin of its own namespace. */
  lemma DetectedOrigin(path: string, alnum: Alnum)
    requires SplitOriginPrefix(path, alnum).None? && !("/" <= path)
    ensures PathOf(path, None, alnum).origin == DetectOrigin(path).GetOr("")
  {
  }

  lemma FirstPart(a: string, c: char, b: string)
    requires c !in a
    ensures SplitOn(a, [c]) == [a]
    ensures SplitOn(a + [c] + b, [c])[0] == a
  {
    FindNone(a, [c]);
    SplitAppend(a, c, b);
  }

  /** The namespace in front of the first colon decides the origin, whatever follows it. */
  lemma DetectsNamespace(ns: string, rest: string)
    requires Free(ns, {'/', ':', '['})
    ensures DetectOrigin(ns + ":" + rest) == NamespaceOrigin(ns)
  {
    var path := ns + ":" + rest;
    var first := SplitOn(path, "/")[0];
    var local := SplitOn(rest, "/")[0];
    assert '/' !in ns + ":" && ':' !in ns && '[' !in ns;
    FindChar(rest, '/');
    if '/' in rest {
      var i := Find(rest, "/");
      assert path == (ns + ":" + rest[..i]) + "/" + rest[i + 1..];
      FirstPart(ns + ":" + rest[..i], '/', rest[i + 1..]);
    } else {
      FirstPart(path, '/', "");
    }
    assert first == ns + ":" + local;
    assert first[|ns|] == ':';
    FirstPart(ns, ':', local);
  }

  lemma RootedIsNotBare(a: string, alnum: Alnum)
    requires "/" <= a
    ensures !BareOrigin(a, alnum)
  {
    assert a[0] == '/';
    assert |a| > 1 ==> a[..|a| - 1][0] == '/';
  }

  /** The absolute-path case: a rooted prefix always joins. */
  lemma RootedJoin(a: string, b: string, origin: Option<string>, alnum: Alnum)
    requires "/" <= a && SplitOriginPrefix(b, alnum).None?
    ensures PathOf(a + "/" + b, origin, alnum).elem
         == PathOf(a, origin, alnum).elem + PathOf(b, origin, alnum).elem
  {
    RootedIsNotBare(a, alnum);
    JoinNamesSameNodes(a, b, origin, alnum);
  }
}
