/**
 The Get and Set calls of the client around the path language: requests are built path by path
 with the call's origin, and a Get response becomes a dictionary keyed by printed path.
 Values stay abstract.
 */
module GnmiClient {
  import opened Wrappers
  import opened GnmiPath
  import opened PathLaws
  import opened PathDomain

  // ---------------------------------------------------------------- requests

  datatype GetRequest = GetRequest(path: seq<Path>, prefix: Option<Path>)

  ghost predicate BuiltFrom(built: seq<Path>, texts: seq<string>, origin: Option<string>, alnum: Alnum) {
    && |built| == |texts|
    && forall i {:trigger built[i]} | 0 <= i < |texts| :: built[i] == PathOf(texts[i], origin, alnum)
  }

  method BuildPaths(texts: seq<string>, origin: Option<string>, alnum: Alnum) returns (built: seq<Path>)
    ensures BuiltFrom(built, texts, origin, alnum)
  {
    built := [];
    ghost var parse := (text: string) => PathOf(text, origin, alnum);
    for n := 0 to |texts|
      invariant |built| == n && forall i | 0 <= i < n :: built[i] == parse(texts[i])
    {
      var path := BuildPath(texts[n], origin, alnum);
      built := built + [path];
    }
  }

  /**
   `get`: the prefix is sent only when it is a nonempty text. What prefix and path name together
   are the nodes of the one absolute path, unless the prefix is a bare `origin:`.
   */
  method BuildGetRequest(paths: seq<string>, origin: Option<string>, prefix: Option<string>, alnum: Alnum)
    returns (request: GetRequest)
    ensures BuiltFrom(request.path, paths, origin, alnum)
    ensures request.prefix.Some? <==> prefix.Some? && prefix.value != ""
    ensures request.prefix.Some? ==> request.prefix.value == PathOf(prefix.value, origin, alnum)
    ensures request.prefix.Some? ==>
      forall i | 0 <= i < |paths| && SplitOriginPrefix(paths[i], alnum).None? ::
        request.prefix.value.elem + request.path[i].elem
          == PathOf(prefix.value + "/" + paths[i], origin, alnum).elem
        <==> !BareOrigin(prefix.value, alnum)
  {
    var built := BuildPaths(paths, origin, alnum);
    if prefix.Some? && prefix.value != "" {
      var head := BuildPath(prefix.value, origin, alnum);
      request := GetRequest(built, Some(head));
      forall i | 0 <= i < |paths| && SplitOriginPrefix(paths[i], alnum).None?
        ensures head.elem + built[i].elem == PathOf(prefix.value + "/" + paths[i], origin, alnum).elem
          <==> !BareOrigin(prefix.value, alnum)
      {
        JoinNamesSameNodes(prefix.value, paths[i], origin, alnum);
      }
    } else {
      request := GetRequest(built, None);
    }
  }

  /** One `Update` message of a Set request. */
  datatype SetUpdate<V> = SetUpdate(path: Path, val: V)

  datatype SetRequest<V> =
    SetRequest(delete: seq<Path>, replace: seq<SetUpdate<V>>, update: seq<SetUpdate<V>>)

  /** The update messages carry the values in the order of the operations, on the built paths. */
  ghost predicate UpdatesFrom<V>(built: seq<SetUpdate<V>>, ops: seq<(string, V)>,
                                 origin: Option<string>, alnum: Alnum)
  {
    && |built| == |ops|
    && forall i {:trigger built[i]} | 0 <= i < |ops| ::
         built[i] == SetUpdate(PathOf(ops[i].0, origin, alnum), ops[i].1)
  }

  method BuildUpdates<V>(ops: seq<(string, V)>, origin: Option<string>, alnum: Alnum)
    returns (built: seq<SetUpdate<V>>)
    ensures UpdatesFrom(built, ops, origin, alnum)
  {
    built := [];
    ghost var message := (op: (string, V)) => SetUpdate(PathOf(op.0, origin, alnum), op.1);
    for n := 0 to |ops|
      invariant |built| == n && forall i | 0 <= i < n :: built[i] == message(ops[i])
    {
      var path := BuildPath(ops[n].0, origin, alnum);
      built := built + [SetUpdate(path, ops[n].1)];
    }
  }

  /** `set`: three loops over the operation lists, all under the same origin argument. */
  method BuildSetRequest<V>(delete: seq<string>, replace: seq<(string, V)>, update: seq<(string, V)>,
                            origin: Option<string>, alnum: Alnum)
    returns (request: SetRequest<V>)
    ensures BuiltFrom(request.delete, delete, origin, alnum)
    ensures UpdatesFrom(request.replace, replace, origin, alnum)
    ensures UpdatesFrom(request.update, update, origin, alnum)
  {
    var deletes := BuildPaths(delete, origin, alnum);
    var replaceOps := BuildUpdates(replace, origin, alnum);
    var updates := BuildUpdates(update, origin, alnum);
    request := SetRequest(deletes, replaceOps, updates);
  }

  // ---------------------------------------------------------------- the Get result

  /** One update of a notification; `listing` is the order its key maps are iterated in. */
  datatype Update<V> = Update(path: Path, listing: seq<ListedElem>, val: V)

  function Text<V>(u: Update<V>): string {
    PathText(u.listing)
  }

  function Flatten<T>(groups: seq<seq<T>>): seq<T> {
    if groups == [] then [] else Flatten(groups[..|groups| - 1]) + groups[|groups| - 1]
  }

  ghost predicate LastAt<V>(us: seq<Update<V>>, k: string, i: int) {
    0 <= i < |us| && Text(us[i]) == k && forall j | i < j < |us| :: Text(us[j]) != k
  }

  /** The dictionary holds, per printed path, the value of the last update that prints to it. */
  ghost predicate LastWins<V>(us: seq<Update<V>>, result: map<string, V>) {
    && (forall i | 0 <= i < |us| :: Text(us[i]) in result)
    && (forall k | k in result :: exists i :: LastAt(us, k, i) && result[k] == us[i].val)
  }

  lemma LastWinsStep<V>(us: seq<Update<V>>, result: map<string, V>, u: Update<V>)
    requires LastWins(us, result)
    ensures LastWins(us + [u], result[Text(u) := u.val])
  {
    var us' := us + [u];
    var r' := result[Text(u) := u.val];
    forall k | k in r' ensures exists i :: LastAt(us', k, i) && r'[k] == us'[i].val {
      if k == Text(u) {
        assert LastAt(us', k, |us|);
      } else {
        var i :| LastAt(us, k, i) && result[k] == us[i].val;
        assert LastAt(us', k, i);
      }
    }
  }

  /** Update `m` of notification `n` prints to `k`. */
  ghost predicate PrintsAt<V>(ns: seq<seq<Update<V>>>, n: int, m: int, k: string) {
    0 <= n < |ns| && 0 <= m < |ns[n]| && Text(ns[n][m]) == k
  }

  /** And no later update does, in the same notification or in a later one. */
  ghost predicate LastPrintedAt<V>(ns: seq<seq<Update<V>>>, n: int, m: int, k: string) {
    && PrintsAt(ns, n, m, k)
    && forall n', m' | PrintsAt(ns, n', m', k) :: n' < n || (n' == n && m' <= m)
  }

  /** Every update of every notification has its entry, and the last one that prints to a key fills it. */
  ghost predicate LastNotified<V>(ns: seq<seq<Update<V>>>, result: map<string, V>) {
    && (forall n, m | 0 <= n < |ns| && 0 <= m < |ns[n]| :: Text(ns[n][m]) in result)
    && (forall k | k in result :: exists n, m :: LastPrintedAt(ns, n, m, k) && result[k] == ns[n][m].val)
  }

  /** Where a flattened sequence holds element `m` of group `n`. */
  function Offset<T>(groups: seq<seq<T>>, n: nat): nat
    requires n <= |groups|
  {
    |Flatten(groups[..n])|
  }

  lemma {:induction false} FlattenAt<T>(groups: seq<seq<T>>, n: nat, m: nat)
    requires n < |groups| && m < |groups[n]|
    ensures Offset(groups, n) + m < |Flatten(groups)| && Flatten(groups)[Offset(groups, n) + m] == groups[n][m]
  {
    var l := |groups| - 1;
    if n < l {
      FlattenAt(groups[..l], n, m);
      assert groups[..l][..n] == groups[..n];
    }
  }

  lemma {:induction false} FlattenFrom<T>(groups: seq<seq<T>>, i: nat) returns (n: nat, m: nat)
    requires i < |Flatten(groups)|
    ensures n < |groups| && m < |groups[n]| && i == Offset(groups, n) + m
  {
    var l := |groups| - 1;
    if i < |Flatten(groups[..l])| {
      n, m := FlattenFrom(groups[..l], i);
      assert groups[..l][..n] == groups[..n];
    } else {
      n, m := l, i - |Flatten(groups[..l])|;
    }
  }

  lemma {:induction false} OffsetGrows<T>(groups: seq<seq<T>>, a: nat, b: nat)
    requires a < b <= |groups|
    ensures Offset(groups, a) + |groups[a]| <= Offset(groups, b)
    decreases b
  {
    assert groups[..b][..b - 1] == groups[..b - 1] && groups[..b][b - 1] == groups[b - 1];
    if a < b - 1 {
      OffsetGrows(groups, a, b - 1);
    }
  }

  lemma LastIsLastNotified<V>(ns: seq<seq<Update<V>>>, k: string, n: nat, m: nat)
    requires n < |ns| && m < |ns[n]| && LastAt(Flatten(ns), k, Offset(ns, n) + m)
    ensures LastPrintedAt(ns, n, m, k)
  {
    FlattenAt(ns, n, m);
    forall n', m' | PrintsAt(ns, n', m', k) ensures n' < n || (n' == n && m' <= m) {
      FlattenAt(ns, n', m');
      if n < n' {
        OffsetGrows(ns, n, n');
      }
    }
  }

  lemma NotifiedHasEntry<V>(ns: seq<seq<Update<V>>>, result: map<string, V>, n: nat, m: nat)
    requires LastWins(Flatten(ns), result) && n < |ns| && m < |ns[n]|
    ensures Text(ns[n][m]) in result
  {
    FlattenAt(ns, n, m);
    assert Text(Flatten(ns)[Offset(ns, n) + m]) in result;
  }

  lemma EntryIsNotified<V>(ns: seq<seq<Update<V>>>, result: map<string, V>, k: string) returns (n: nat, m: nat)
    requires LastWins(Flatten(ns), result) && k in result
    ensures LastPrintedAt(ns, n, m, k) && result[k] == ns[n][m].val
  {
    var i :| LastAt(Flatten(ns), k, i) && result[k] == Flatten(ns)[i].val;
    n, m := FlattenFrom(ns, i);
    FlattenAt(ns, n, m);
    LastIsLastNotified(ns, k, n, m);
  }

  lemma FlatIsNested<V>(ns: seq<seq<Update<V>>>, result: map<string, V>)
    requires LastWins(Flatten(ns), result)
    ensures LastNotified(ns, result)
  {
    forall n, m | 0 <= n < |ns| && 0 <= m < |ns[n]| ensures Text(ns[n][m]) in result {
      NotifiedHasEntry(ns, result, n, m);
    }
    forall k | k in result ensures exists n, m :: LastPrintedAt(ns, n, m, k) && result[k] == ns[n][m].val {
      var n, m := EntryIsNotified(ns, result, k);
    }
  }

  /** `_parse_get_response`: the nested loops over notifications and their updates. */
  method ParseGetResponse<V>(notifications: seq<seq<Update<V>>>) returns (result: map<string, V>)
    ensures LastWins(Flatten(notifications), result) && LastNotified(notifications, result)
  {
    result := map[];
    for n := 0 to |notifications|
      invariant LastWins(Flatten(notifications[..n]), result)
    {
      ghost var before := Flatten(notifications[..n]);
      var updates := notifications[n];
      assert before + updates[..0] == before;
      for m := 0 to |updates|
        invariant LastWins(before + updates[..m], result)
      {
        LastWinsStep(before + updates[..m], result, updates[m]);
        assert before + updates[..m] + [updates[m]] == before + updates[..m + 1];
        var text := PathToString(updates[m].listing);
        result := result[text := updates[m].val];
      }
      assert updates[..|updates|] == updates;
      assert notifications[..n + 1][..n] == notifications[..n];
    }
    assert notifications[..|notifications|] == notifications;
    FlatIsNested(notifications, result);
  }

  lemma LastWinsSame<V>(us: seq<Update<V>>, r: map<string, V>, s: map<string, V>)
    requires LastWins(us, r) && LastWins(us, s)
    ensures forall k | k in r :: k in s && r[k] == s[k]
  {
    forall k | k in r ensures k in s && r[k] == s[k] {
      var i :| LastAt(us, k, i) && r[k] == us[i].val;
      assert Text(us[i]) in s;
      var j :| LastAt(us, k, j) && s[k] == us[j].val;
      assert !(i < j) && !(j < i);
    }
  }

  /** The description pins the dictionary down: keys and values are both determined. */
  lemma LastWinsUnique<V>(us: seq<Update<V>>, r: map<string, V>, s: map<string, V>)
    requires LastWins(us, r) && LastWins(us, s)
    ensures r == s
  {
    LastWinsSame(us, r, s);
    LastWinsSame(us, s, r);
  }

  /** Updates whose printed paths can be read back, all with the same origin and no target. */
  ghost predicate OnInjectiveDomain<V>(us: seq<Update<V>>, origin: string) {
    forall i | 0 <= i < |us| ::
      && Listing(us[i].listing, us[i].path.elem) && AllReadable(us[i].listing)
      && us[i].path.origin == origin && us[i].path.target == ""
  }

  ghost function PathSet<V>(us: seq<Update<V>>): set<Path> {
    set i | 0 <= i < |us| :: us[i].path
  }

  ghost function TextSet<V>(us: seq<Update<V>>): set<string> {
    set i | 0 <= i < |us| :: Text(us[i])
  }

  lemma SetsStep<V>(us: seq<Update<V>>, u: Update<V>)
    ensures PathSet(us + [u]) == PathSet(us) + {u.path}
    ensures TextSet(us + [u]) == TextSet(us) + {Text(u)}
  {
    var us' := us + [u];
    assert us'[|us|] == u;
    assert forall i | 0 <= i < |us| :: us'[i] == us[i];
  }

  lemma SamePathSameText<V>(u: Update<V>, v: Update<V>, origin: string)
    requires OnInjectiveDomain([u, v], origin)
    ensures Text(u) == Text(v) <==> u.path == v.path
  {
    assert [u, v][0] == u && [u, v][1] == v;
    if Text(u) == Text(v) {
      ReadableInjective(u.path, u.listing, v.path, v.listing);
    } else if u.path == v.path {
      SameListing(u.listing, v.listing, u.path.elem);
    }
  }

  /** A new update adds a new text exactly when it adds a new path. */
  lemma NewTogether<V>(us: seq<Update<V>>, u: Update<V>, origin: string)
    requires OnInjectiveDomain(us, origin) && OnInjectiveDomain([u], origin)
    ensures u.path in PathSet(us) <==> Text(u) in TextSet(us)
  {
    assert [u][0] == u;
    forall i | 0 <= i < |us| ensures Text(us[i]) == Text(u) <==> us[i].path == u.path {
      SamePathSameText(us[i], u, origin);
    }
  }

  lemma GrowTogether<A, B>(s: set<A>, a: A, t: set<B>, b: B)
    requires |s| == |t| && (a in s <==> b in t)
    ensures |s + {a}| == |t + {b}|
  {
    if a in s {
      assert s + {a} == s && t + {b} == t;
    }
  }

  lemma {:induction false} PathsAndTexts<V>(us: seq<Update<V>>, origin: string)
    requires OnInjectiveDomain(us, origin)
    ensures |PathSet(us)| == |TextSet(us)|
  {
    if us != [] {
      var rest, u := us[..|us| - 1], us[|us| - 1];
      assert us == rest + [u];
      PathsAndTexts(rest, origin);
      SetsStep(rest, u);
      NewTogether(rest, u, origin);
      GrowTogether(PathSet(rest), u.path, TextSet(rest), Text(u));
    }
  }

  /** Readable elements have at most one key, and then only one listing. */
  lemma SameListing(ls: seq<ListedElem>, ms: seq<ListedElem>, es: seq<PathElem>)
    requires Listing(ls, es) && Listing(ms, es) && AllReadable(ls)
    ensures ls == ms
  {
    forall i | 0 <= i < |es| ensures ls[i] == ms[i] {
      ListsSize(ls[i].items, es[i].key);
      ListsSize(ms[i].items, es[i].key);
      if es[i].key != map[] {
        var (k, v) := ls[i].items[0];
        MapOfOne(ls[i].items);
        ListsSingle(ms[i].items, k, v);
      }
    }
  }

  /** On that domain the dictionary has exactly one entry per distinct path, none is lost. */
  lemma OneEntryPerPath<V>(us: seq<Update<V>>, result: map<string, V>, origin: string)
    requires LastWins(us, result) && OnInjectiveDomain(us, origin)
    ensures |result| == |PathSet(us)|
  {
    PathsAndTexts(us, origin);
    var ts := TextSet(us);
    forall k | k in result ensures k in ts {
      var i :| LastAt(us, k, i) && result[k] == us[i].val;
      assert Text(us[i]) == k;
    }
    assert result.Keys == ts;
    assert |result| == |result.Keys|;
  }
}
