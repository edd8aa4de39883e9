/**
 The Set side of the Ansible helper: items are checked, a per-item origin is written into the
 path text, and the lists go to the client in one request. `fail_json` is an exit with an error.
 */
module ModuleHelper {
  import opened Wrappers
  import opened PyStr
  import opened GnmiPath
  import opened PathLaws
  import opened GnmiClient

  // ---------------------------------------------------------------- encoding an item's origin

  /** A path the helper takes to carry an origin of its own; the name is not checked here. */
  predicate Trusted(path: string) {
    var i := Find(path, ":/");
    i > 0 && '/' !in path[..i] && '[' !in path[..i]
  }

  /** Which paths those are: a colon with a slash behind it, and no slash or bracket before it. */
  lemma TrustedExactly(path: string)
    ensures Trusted(path) <==>
      exists i :: 0 < i && MatchesAt(path, ":/", i) && forall k | 0 <= k < i :: path[k] != '/' && path[k] != '['
  {
    var f := Find(path, ":/");
    if Trusted(path) {
      assert forall k | 0 <= k < f :: path[k] == path[..f][k];
    } else if exists i :: 0 < i && MatchesAt(path, ":/", i)
                       && forall k | 0 <= k < i :: path[k] != '/' && path[k] != '[' {
      var i :| 0 < i && MatchesAt(path, ":/", i) && forall k | 0 <= k < i :: path[k] != '/' && path[k] != '[';
      SlashInMatch(path, f);
      assert path[..f] <= path;
    }
  }

  lemma SlashInMatch(path: string, f: nat)
    requires MatchesAt(path, ":/", f)
    ensures path[f] == ':' && path[f + 1] == '/'
  {
    assert path[f..f + 2][0] == path[f] && path[f..f + 2][1] == path[f + 1];
  }

  function Rooted(path: string): string {
    if "/" <= path then path else "/" + path
  }

  /** `_apply_item_origin`. */
  function ApplyItemOrigin(path: string, itemOrigin: Option<string>): string {
    if !HasText(itemOrigin) then path
    else if Trusted(path) then path
    else itemOrigin.value + ":" + Rooted(path)
  }

  lemma UntrustedHasNoPrefix(path: string, alnum: Alnum)
    requires !Trusted(path)
    ensures SplitOriginPrefix(path, alnum).None?
  {
  }

  lemma {:induction false} ElementsEmpty(parts: seq<string>)
    requires Elements(parts) == []
    ensures forall i | 0 <= i < |parts| :: parts[i] == ""
  {
    if parts != [] {
      ElementsEmpty(parts[..|parts| - 1]);
    }
  }

  lemma {:induction false} JoinEmpties(parts: seq<string>)
    requires forall i | 0 <= i < |parts| :: parts[i] == ""
    ensures forall i | 0 <= i < |Join(parts, "/")| :: Join(parts, "/")[i] == '/'
  {
    if |parts| > 1 {
      JoinEmpties(parts[1..]);
    }
  }

  lemma NodesNonempty(text: string, i: nat)
    requires i < |text| && text[i] != '/'
    ensures Nodes(text) != []
  {
    JoinSplit(text, "/");
    if Nodes(text) == [] {
      ElementsEmpty(SplitOn(text, "/"));
      JoinEmpties(SplitOn(text, "/"));
      assert false;
    }
  }

  lemma RootedNodes(path: string)
    ensures Nodes(Rooted(path)) == Nodes(path)
  {
    NodesOfSlash(path);
  }

  /** Left in place, the name in front of the colon is an element too many. */
  lemma NameIsAnElement(o: string, rooted: string)
    requires "/" <= rooted
    ensures Nodes(o + ":" + rooted) != Nodes(rooted)
  {
    var head, tail := o + ":", rooted[1..];
    assert o + ":" + rooted == head + "/" + tail;
    assert rooted == "/" + tail;
    NodesAppend(head, tail);
    NodesOfSlash(tail);
    NodesNonempty(head, |o|);
  }

  /** A prefix shorter than the name, or none, leaves something in front of the rooted path. */
  lemma LeftInFront(o: string, rooted: string, alnum: Alnum) returns (left: string)
    requires !Identifier(o, alnum) && o != "" && "/" <= rooted
    ensures var split := SplitOriginPrefix(o + ":" + rooted, alnum);
      (if split.Some? then split.value.1 else o + ":" + rooted) == left + ":" + rooted
  {
    var s := o + ":" + rooted;
    IdentifiersAccepted(o, alnum);
    assert s[|o|..|o| + 2] == ":/";
    assert MatchesAt(s, ":/", |o|);
    var idx := Find(s, ":/");
    assert s[..|o|] == o;
    if SplitOriginPrefix(s, alnum).Some? {
      left := o[idx + 1..];
      assert s[idx + 1..] == left + ":" + rooted;
    } else {
      left := o;
    }
  }

  /** Without an identifier in front, some part of the name stays behind as an element. */
  lemma NonIdentifierIsLost(o: string, rooted: string, origin: Option<string>, alnum: Alnum)
    requires o != "" && !Identifier(o, alnum) && "/" <= rooted
    ensures PathOf(o + ":" + rooted, origin, alnum).elem != Nodes(rooted)
  {
    PathElems(o + ":" + rooted, origin, alnum);
    var left := LeftInFront(o, rooted, alnum);
    NameIsAnElement(left, rooted);
  }

  /**
   For a path that is not trusted, the encoded text keeps the elements of the bare path if and only
   if the origin is an identifier, whatever the module-level origin; without one, the identifier
   is also the origin of the result.
   */
  lemma ItemOriginSurvives(path: string, o: string, moduleOrigin: Option<string>, alnum: Alnum)
    requires o != "" && !Trusted(path)
    ensures var p := PathOf(ApplyItemOrigin(path, Some(o)), moduleOrigin, alnum);
      && (p.elem == PathOf(path, None, alnum).elem <==> Identifier(o, alnum))
      && (Identifier(o, alnum) && moduleOrigin.None? ==> p.origin == o)
  {
    UntrustedHasNoPrefix(path, alnum);
    PathElems(path, None, alnum);
    RootedNodes(path);
    if Identifier(o, alnum) {
      IdentifierSplits(o, Rooted(path), alnum);
      PathElems(o + ":" + Rooted(path), moduleOrigin, alnum);
    } else {
      NonIdentifierIsLost(o, Rooted(path), moduleOrigin, alnum);
    }
  }

  /**
   Under a module-level origin an item reaches the wire as it was meant, with its own origin and
   the elements of its path, if and only if the two origins are the same and an identifier.
   */
  lemma ModuleOriginDecides(path: string, o: string, m: string, alnum: Alnum)
    requires o != "" && !Trusted(path)
    ensures var p := PathOf(ApplyItemOrigin(path, Some(o)), Some(m), alnum);
      p.origin == o && p.elem == PathOf(path, None, alnum).elem <==> m == o && Identifier(o, alnum)
  {
    ItemOriginSurvives(path, o, Some(m), alnum);
  }

  /** The same for an origin written into the path: only its elements get through. */
  lemma ModuleOriginBeatsInPath(o: string, rooted: string, m: string, alnum: Alnum)
    requires Identifier(o, alnum) && "/" <= rooted
    ensures var p := PathOf(o + ":" + rooted, Some(m), alnum);
      p.elem == PathOf(rooted, None, alnum).elem && (p.origin == o <==> m == o)
  {
    IdentifierSplits(o, rooted, alnum);
    PathElems(o + ":" + rooted, Some(m), alnum);
    RootedHasNoPrefix(rooted, alnum);
    PathElems(rooted, None, alnum);
  }

  /** What `native:/x` is built to, with and without a module-level origin. */
  lemma NativePath(origin: Option<string>, alnum: Alnum)
    ensures PathOf("native:/x", origin, alnum) == Path([PathElem("x", map[])], origin.GetOr("native"), "")
  {
    assert "native" + ":" + "/x" == "native:/x";
    IdentifierSplits("native", "/x", alnum);
    NodeX();
  }

  lemma NodeX()
    ensures Nodes("x") == [PathElem("x", map[])]
  {
    FindNone("x", "/");
    assert Elements(["x"][..0]) == [];
  }

  /**
   An item for which the documentation promises the origin `native`; with the module-level origin
   `openconfig` the wire carries the latter.
   */
  lemma ItemOriginOverruled(alnum: Alnum)
    ensures var text := ApplyItemOrigin("/x", Some("native"));
      && PathOf(text, Some("openconfig"), alnum) == Path([PathElem("x", map[])], "openconfig", "")
      && PathOf(text, None, alnum) == Path([PathElem("x", map[])], "native", "")
  {
    NativeEncoded();
    NativePath(Some("openconfig"), alnum);
    NativePath(None, alnum);
  }

  lemma NativeEncoded()
    ensures ApplyItemOrigin("/x", Some("native")) == "native:/x"
  {
    RootedIsNotTrusted("/x");
    assert "native" + ":" + "/x" == "native:/x";
  }

  lemma RootedIsNotTrusted(path: string)
    requires "/" <= path
    ensures !Trusted(path)
  {
    var i := Find(path, ":/");
    assert i > 0 ==> path[..i][0] == '/';
  }

  /** A trusted path with an identifier keeps the origin it names itself. */
  lemma TrustedKeepsItsOrigin(path: string, o: string, alnum: Alnum)
    requires Trusted(path) && Identifier(path[..Find(path, ":/")], alnum)
    ensures var i := Find(path, ":/");
      var p := PathOf(ApplyItemOrigin(path, Some(o)), None, alnum);
      p.origin == path[..i] && p.elem == Nodes(path[i + 1..])
  {
    IdentifiersAccepted(path[..Find(path, ":/")], alnum);
    PathElems(path, None, alnum);
  }

  lemma TrustedShape(path: string)
    requires Trusted(path)
    ensures var i := Find(path, ":/");
      && path == path[..i + 1] + "/" + path[i + 2..] && path[i] == ':'
      && !("/" <= path)
  {
    var i := Find(path, ":/");
    assert path[i] == path[i..i + 2][0] == ':' && path[i + 1] == path[i..i + 2][1] == '/';
    assert path[0] == path[..i][0];
  }

  /**
   A trusted path whose name in front of `:/` is not an identifier takes an origin neither from the
   item, which is ignored, nor from the name, which stays behind as an element of the path. Only
   the namespace of its first element can supply one.
   */
  lemma TrustedLosesBoth(path: string, o: string, alnum: Alnum)
    requires Trusted(path) && !Identifier(path[..Find(path, ":/")], alnum)
    ensures var p := PathOf(ApplyItemOrigin(path, Some(o)), None, alnum);
      var i := Find(path, ":/");
      && p.origin == DetectOrigin(path).GetOr("")
      && p.elem == Nodes(path[..i + 1]) + Nodes(path[i + 2..]) && Nodes(path[..i + 1]) != []
  {
    var i := Find(path, ":/");
    TrustedShape(path);
    IdentifiersAccepted(path[..i], alnum);
    PathElems(path, None, alnum);
    DetectedOrigin(path, alnum);
    NodesAppend(path[..i + 1], path[i + 2..]);
    NodesNonempty(path[..i + 1], i);
  }

  lemma NoKnownNamespace(ns: string)
    requires ns != "" && ns[0] == 'a'
    ensures NamespaceOrigin(ns) == None
  {
    assert forall i | 0 <= i < |CISCO_PREFIXES| :: CISCO_PREFIXES[i][0] == 'C';
    assert forall i | 0 <= i < |IETF_PREFIXES| :: IETF_PREFIXES[i][0] != 'a';
    assert "openconfig"[0] == 'o';
  }

  lemma NamedPathShape(name: string, x: string)
    requires name != "" && Free(name, {'/', ':', '['})
    ensures var path := name + ":/" + x;
      && Find(path, ":/") == |name| && path[..|name|] == name && Trusted(path)
      && path == name + ":" + ("/" + x)
  {
    assert ':' !in name;
    FindAfter(name, ":/", x);
  }

  /**
   The gap between the two origin tests: a name that is no identifier and no known namespace
   passes the helper's test and fails the parser's, so the item's origin disappears.
   */
  lemma ItemOriginDropped(name: string, x: string, o: string, alnum: Alnum)
    requires name != "" && Free(name, {'/', ':', '['}) && !Identifier(name, alnum)
    requires NamespaceOrigin(name) == None
    ensures PathOf(ApplyItemOrigin(name + ":/" + x, Some(o)), None, alnum).origin == ""
  {
    NamedPathShape(name, x);
    TrustedLosesBoth(name + ":/" + x, o, alnum);
    DetectsNamespace(name, "/" + x);
  }

  lemma DottedOriginDropped(x: string, o: string, alnum: Alnum)
    ensures PathOf(ApplyItemOrigin("a.b" + ":/" + x, Some(o)), None, alnum).origin == ""
  {
    var name := "a.b";
    assert name[1] == '.';
    NoKnownNamespace(name);
    ItemOriginDropped(name, x, o, alnum);
  }

  /** What stands in front of the first `:/`, or the whole text. */
  function Head(o: string): string {
    var i := Find(o, ":/");
    if i == -1 then o else o[..i]
  }

  /** An origin that the helper recognises again once it has been written in front of a path. */
  predicate HeadOk(o: string) {
    Head(o) != "" && '/' !in Head(o) && '[' !in Head(o)
  }

  /** In `o:/...` the first `:/` is the one inside `o`, or the one behind it. */
  lemma EncodedIsTrusted(o: string, rooted: string)
    requires "/" <= rooted
    ensures Trusted(o + ":" + rooted) <==> HeadOk(o)
  {
    var s := o + ":" + rooted;
    assert s == (o + ":") + "/" + rooted[1..];
    FindPairStable(o + ":", rooted[1..]);
    ColonAddsNoPair(o);
    var i := Find(s, ":/");
    assert s[..i] == Head(o);
  }

  lemma ColonAddsNoPair(o: string)
    ensures Find(o + ":", ":/") == Find(o, ":/")
  {
    var s := o + ":";
    MatchLast(s, ":/");
    forall j | 0 <= j <= |o| - 2 ensures MatchesAt(s, ":/", j) <==> MatchesAt(o, ":/", j) {
      assert s[j..j + 2] == o[j..j + 2];
    }
    assert s[|o|] == ':';
  }

  lemma IdentifierHeadOk(o: string, alnum: Alnum)
    requires Identifier(o, alnum)
    ensures HeadOk(o)
  {
    IdentifierFree(o, alnum);
    assert ':' !in o && '/' !in o && '[' !in o;
    FindNone(o, ":/");
  }

  /**
   Encoding a second origin leaves the text alone if and only if there is no second origin, or the
   path is trusted from the start, or the first origin is recognised again, as every identifier is.
   */
  lemma EncodeTwice(path: string, o: string, second: Option<string>)
    ensures ApplyItemOrigin(ApplyItemOrigin(path, Some(o)), second) == ApplyItemOrigin(path, Some(o))
       <==> !HasText(second) || Trusted(path) || HeadOk(o)
  {
    EncodedIsTrusted(o, Rooted(path));
    var once := ApplyItemOrigin(path, Some(o));
    if HasText(second) && !Trusted(once) {
      assert |ApplyItemOrigin(once, second)| > |once|;
    }
  }

  // ---------------------------------------------------------------- normalising the item lists

  datatype ListName = Updates | Replaces | Deletes

  datatype Reason = NotADict | MissingPath | MissingValue

  /** The arguments of a `fail_json` call: which list, which item, what is wrong. */
  datatype Failure = Failure(list: ListName, index: nat, reason: Reason)

  datatype SetItem<V> =
    | OtherItem
    | Item(path: Option<string>, value: Option<V>, origin: Option<string>)

  datatype DeleteItem =
    | TextItem(text: string)
    | DictItem(path: Option<string>, origin: Option<string>)
    | OtherDelete

  /** What is wrong with an item, tested in the source's order. */
  function SetItemFault<V>(item: SetItem<V>): Option<Reason> {
    match item
    case OtherItem => Some(NotADict)
    case Item(path, value, _) =>
      if !HasText(path) then Some(MissingPath)
      else if value.None? then Some(MissingValue)
      else None
  }

  function DeleteItemFault(item: DeleteItem): Option<Reason> {
    match item
    case TextItem(_) => None
    case DictItem(path, _) => if HasText(path) then None else Some(MissingPath)
    case OtherDelete => Some(NotADict)
  }

  function DeletePath(item: DeleteItem): string
    requires DeleteItemFault(item).None?
  {
    match item
    case TextItem(text) => text
    case DictItem(path, origin) => ApplyItemOrigin(path.value, origin)
  }

  /** Operations in list order: the encoded path of each item, with its value. */
  ghost predicate OpsFrom<V>(ops: seq<(string, V)>, items: seq<SetItem<V>>) {
    && |ops| == |items|
    && forall i | 0 <= i < |items| ::
         && SetItemFault(items[i]).None?
         && ops[i] == (ApplyItemOrigin(items[i].path.value, items[i].origin), items[i].value.value)
  }

  /** `_normalise_set_items` with `require_value=True`, as both callers pass it. */
  method NormaliseSetItems<V>(items: seq<SetItem<V>>, list: ListName)
    returns (r: Result<seq<(string, V)>, Failure>)
    ensures r.Ok? ==> OpsFrom(r.value, items)
    ensures r.Err? ==>
      && r.error.list == list && r.error.index < |items|
      && SetItemFault(items[r.error.index]) == Some(r.error.reason)
      && forall i | 0 <= i < r.error.index :: SetItemFault(items[i]).None?
    ensures r.Ok? ==>
      forall i | 0 <= i < |items| :: items[i].Item? && HasText(items[i].path) && items[i].value.Some?
    ensures r.Err? ==>
      var item, reason := items[r.error.index], r.error.reason;
      && (reason.NotADict? <==> item.OtherItem?)
      && (reason.MissingPath? <==> item.Item? && !HasText(item.path))
      && (reason.MissingValue? ==> item.value.None?)
  {
    var ops: seq<(string, V)> := [];
    for n := 0 to |items|
      invariant OpsFrom(ops, items[..n])
    {
      var item := items[n];
      if item.OtherItem? {
        return Err(Failure(list, n, NotADict));
      }
      if !HasText(item.path) {
        return Err(Failure(list, n, MissingPath));
      }
      if item.value.None? {
        return Err(Failure(list, n, MissingValue));
      }
      ops := ops + [(ApplyItemOrigin(item.path.value, item.origin), item.value.value)];
    }
    return Ok(ops);
  }

  ghost predicate DeletesFrom(ops: seq<string>, items: seq<DeleteItem>) {
    && |ops| == |items|
    && forall i | 0 <= i < |items| :: DeleteItemFault(items[i]).None? && ops[i] == DeletePath(items[i])
  }

  /** `_normalise_delete_items`; a plain text item is taken as it is, even when empty. */
  method NormaliseDeleteItems(items: seq<DeleteItem>) returns (r: Result<seq<string>, Failure>)
    ensures r.Ok? ==> DeletesFrom(r.value, items)
    ensures r.Err? ==>
      && r.error.list == Deletes && r.error.index < |items|
      && DeleteItemFault(items[r.error.index]) == Some(r.error.reason)
      && forall i | 0 <= i < r.error.index :: DeleteItemFault(items[i]).None?
    ensures r.Ok? ==>
      forall i | 0 <= i < |items| :: items[i].TextItem? || (items[i].DictItem? && HasText(items[i].path))
    ensures r.Err? ==>
      var item, reason := items[r.error.index], r.error.reason;
      && (reason.NotADict? <==> item.OtherDelete?)
      && (reason.MissingPath? <==> item.DictItem? && !HasText(item.path))
      && !reason.MissingValue?
  {
    var ops: seq<string> := [];
    for n := 0 to |items|
      invariant DeletesFrom(ops, items[..n])
    {
      match items[n] {
        case TextItem(text) =>
          ops := ops + [text];
        case DictItem(path, origin) =>
          if !HasText(path) {
            return Err(Failure(Deletes, n, MissingPath));
          }
          ops := ops + [ApplyItemOrigin(path.value, origin)];
        case OtherDelete =>
          return Err(Failure(Deletes, n, NotADict));
      }
    }
    return Ok(ops);
  }

  // ---------------------------------------------------------------- the Set operation

  datatype SetOutcome<V> = Rejected(failure: Failure) | CheckOnly | Sent(request: SetRequest<V>)

  /** The item carries an identifier origin on a path that names none itself. */
  ghost predicate OwnOrigin(path: string, origin: Option<string>, alnum: Alnum) {
    origin.Some? && Identifier(origin.value, alnum) && !Trusted(path)
  }

  /** What the wire path of an item has to be, given the module-level origin. */
  ghost predicate WirePath(wire: Path, path: string, origin: Option<string>,
                           moduleOrigin: Option<string>, alnum: Alnum)
  {
    && wire == PathOf(ApplyItemOrigin(path, origin), moduleOrigin, alnum)
    && (moduleOrigin.Some? ==> wire.origin == moduleOrigin.value)
    && (origin == None || origin == Some("") || Trusted(path) ==> wire == PathOf(path, moduleOrigin, alnum))
    && (OwnOrigin(path, origin, alnum) ==>
          && wire.elem == PathOf(path, None, alnum).elem
          && (wire.origin == origin.value <==> moduleOrigin.None? || moduleOrigin.value == origin.value))
  }

  lemma EncodedWirePath(path: string, origin: Option<string>, moduleOrigin: Option<string>, alnum: Alnum)
    ensures WirePath(PathOf(ApplyItemOrigin(path, origin), moduleOrigin, alnum), path, origin, moduleOrigin, alnum)
  {
    if OwnOrigin(path, origin, alnum) {
      ItemOriginSurvives(path, origin.value, moduleOrigin, alnum);
    }
  }

  /** Item by item and in order: the value is carried over and the wire path is the item's. */
  ghost predicate OnWire<V>(wire: seq<SetUpdate<V>>, items: seq<SetItem<V>>, origin: Option<string>, alnum: Alnum) {
    && |wire| == |items|
    && forall i | 0 <= i < |items| ::
         && items[i].Item? && items[i].path.Some? && items[i].value == Some(wire[i].val)
         && WirePath(wire[i].path, items[i].path.value, items[i].origin, origin, alnum)
  }

  lemma UpdatesReachWire<V>(wire: seq<SetUpdate<V>>, ops: seq<(string, V)>, items: seq<SetItem<V>>,
                            origin: Option<string>, alnum: Alnum)
    requires OpsFrom(ops, items) && UpdatesFrom(wire, ops, origin, alnum)
    ensures OnWire(wire, items, origin, alnum)
  {
    forall i | 0 <= i < |items|
      ensures WirePath(wire[i].path, items[i].path.value, items[i].origin, origin, alnum)
    {
      EncodedWirePath(items[i].path.value, items[i].origin, origin, alnum);
    }
  }

  /** A dictionary item's path is wired like an update's; a text item is built as it stands. */
  ghost predicate DeletesOnWire(wire: seq<Path>, items: seq<DeleteItem>, origin: Option<string>, alnum: Alnum) {
    && |wire| == |items|
    && forall i | 0 <= i < |items| ::
         match items[i]
         case TextItem(text) => wire[i] == PathOf(text, origin, alnum)
         case DictItem(path, own) => path.Some? && WirePath(wire[i], path.value, own, origin, alnum)
         case OtherDelete => false
  }

  lemma DeletesReachWire(wire: seq<Path>, ops: seq<string>, items: seq<DeleteItem>,
                         origin: Option<string>, alnum: Alnum)
    requires DeletesFrom(ops, items) && BuiltFrom(wire, ops, origin, alnum)
    ensures DeletesOnWire(wire, items, origin, alnum)
  {
    forall i | 0 <= i < |items| && items[i].DictItem?
      ensures WirePath(wire[i], items[i].path.value, items[i].origin, origin, alnum)
    {
      EncodedWirePath(items[i].path.value, items[i].origin, origin, alnum);
    }
  }

  /** A name of ASCII letters, digits, `-` and `_`. */
  ghost predicate PlainName(o: string) {
    o != "" && forall k | 0 <= k < |o| ::
      'a' <= o[k] <= 'z' || 'A' <= o[k] <= 'Z' || '0' <= o[k] <= '9' || o[k] == '-' || o[k] == '_'
  }

  /** An item's origin, if it is such a name, arrives with its path. */
  lemma NameArrives(wire: Path, o: string, x: string, alnum: Alnum)
    requires WirePath(wire, "/" + x, Some(o), None, alnum) && PlainName(o)
    ensures wire.origin == o && wire.elem == Nodes(x)
  {
    assert forall k | 0 <= k < |o| :: NameChar(o[k], alnum);
    RootedIsNotTrusted("/" + x);
    RootedHasNoPrefix("/" + x, alnum);
    PathElems("/" + x, None, alnum);
    NodesOfSlash(x);
  }

  lemma ItemReachesWire<V>(wire: seq<SetUpdate<V>>, items: seq<SetItem<V>>, i: nat, o: string, x: string,
                           alnum: Alnum)
    requires OnWire(wire, items, None, alnum) && i < |items|
    requires items[i].path == Some("/" + x) && items[i].origin == Some(o) && PlainName(o)
    ensures wire[i].path.origin == o && wire[i].path.elem == Nodes(x)
  {
    NameArrives(wire[i].path, o, x, alnum);
  }

  lemma StandardName()
    ensures PlainName("rfc7951")
  {
  }

  lemma SlashX()
    ensures "/" + "x" == "/x"
  {
  }

  /** Such as `rfc7951`, the origin of the IOS XE models, on the path `/x`. */
  lemma StandardOriginOnWire<V>(wire: seq<SetUpdate<V>>, items: seq<SetItem<V>>, i: nat, alnum: Alnum)
    requires OnWire(wire, items, None, alnum) && i < |items|
    requires items[i].path == Some("/x") && items[i].origin == Some("rfc7951")
    ensures wire[i].path.origin == "rfc7951" && wire[i].path.elem == [PathElem("x", map[])]
  {
    StandardName();
    NodeX();
    SlashX();
    ItemReachesWire(wire, items, i, "rfc7951", "x", alnum);
  }

  ghost predicate AnyFaulty<V>(update: seq<SetItem<V>>, replace: seq<SetItem<V>>, delete: seq<DeleteItem>) {
    || (exists i :: 0 <= i < |update| && SetItemFault(update[i]).Some?)
    || (exists i :: 0 <= i < |replace| && SetItemFault(replace[i]).Some?)
    || (exists i :: 0 <= i < |delete| && DeleteItemFault(delete[i]).Some?)
  }

  /** The failure is that of the first faulty item, the lists taken in the order update, replace, delete. */
  ghost predicate FirstFailure<V>(failure: Failure, update: seq<SetItem<V>>, replace: seq<SetItem<V>>,
                                  delete: seq<DeleteItem>)
  {
    var n := failure.index;
    match failure.list
    case Updates => FirstFaulty(update, n, failure.reason)
    case Replaces => FaultFree(update) && FirstFaulty(replace, n, failure.reason)
    case Deletes =>
      && FaultFree(update) && FaultFree(replace)
      && n < |delete| && DeleteItemFault(delete[n]) == Some(failure.reason)
      && forall i | 0 <= i < n :: DeleteItemFault(delete[i]).None?
  }

  ghost predicate FaultFree<V>(items: seq<SetItem<V>>) {
    forall i | 0 <= i < |items| :: SetItemFault(items[i]).None?
  }

  ghost predicate FirstFaulty<V>(items: seq<SetItem<V>>, n: nat, reason: Reason) {
    n < |items| && SetItemFault(items[n]) == Some(reason) && FaultFree(items[..n])
  }

  /**
   `execute_set`: the three lists are checked in the order update, replace, delete. Nothing is
   sent in check mode or with a faulty item; otherwise item `i` of each list becomes message `i`
   of the request, with its value and with its own origin unless the module gives one.
   */
  method ExecuteSet<V>(update: seq<SetItem<V>>, replace: seq<SetItem<V>>, delete: seq<DeleteItem>,
                       origin: Option<string>, checkMode: bool, alnum: Alnum)
    returns (r: SetOutcome<V>)
    ensures r.Rejected? <==> AnyFaulty(update, replace, delete)
    ensures r.Rejected? ==> FirstFailure(r.failure, update, replace, delete)
    ensures r.CheckOnly? <==> checkMode && !AnyFaulty(update, replace, delete)
    ensures r.Sent? ==> OnWire(r.request.update, update, origin, alnum)
    ensures r.Sent? ==> OnWire(r.request.replace, replace, origin, alnum)
    ensures r.Sent? ==> DeletesOnWire(r.request.delete, delete, origin, alnum)
  {
    var updates := NormaliseSetItems(update, Updates);
    if updates.Err? {
      return Rejected(updates.error);
    }
    var replaceOps := NormaliseSetItems(replace, Replaces);
    if replaceOps.Err? {
      return Rejected(replaceOps.error);
    }
    var deletes := NormaliseDeleteItems(delete);
    if deletes.Err? {
      return Rejected(deletes.error);
    }
    if checkMode {
      return CheckOnly;
    }
    var request := BuildSetRequest(deletes.value, replaceOps.value, updates.value, origin, alnum);
    UpdatesReachWire(request.update, updates.value, update, origin, alnum);
    UpdatesReachWire(request.replace, replaceOps.value, replace, origin, alnum);
    DeletesReachWire(request.delete, deletes.value, delete, origin, alnum);
    return Sent(request);
  }
}
