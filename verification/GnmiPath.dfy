/**
 The gNMI path language of the client: text to `Path` (`_build_path`), the `origin:/path`
 prefix (`_split_origin_prefix`) and `Path` back to text (`_path_to_string`).
 The functions say what is computed; the methods are the source's loops, proved against them.
 */
module GnmiPath {
  import opened Wrappers
  import opened PyStr

  datatype PathElem = PathElem(name: string, key: map<string, string>)

  datatype Path = Path(elem: seq<PathElem>, origin: string, target: string)

  predicate AsciiAlnum(c: char) {
    'a' <= c <= 'z' || 'A' <= c <= 'Z' || '0' <= c <= '9'
  }

  /** Any reading of `str.isalnum` that agrees with it on ASCII; beyond ASCII it is left open. */
  type Alnum = f: char -> bool | forall c: char :: c < 128 as char ==> f(c) == AsciiAlnum(c)
    witness AsciiAlnum

  // ---------------------------------------------------------------- origins

  /** Characters of an origin name in the `origin:/path` form. */
  predicate OriginName(s: string, alnum: Alnum) {
    forall i | 0 <= i < |s| :: alnum(s[i]) || s[i] == '-' || s[i] == '_'
  }

  /** `_split_origin_prefix`: the origin in front of `:/`, and the path from the slash on. */
  function SplitOriginPrefix(path: string, alnum: Alnum): Option<(string, string)> {
    var idx := Find(path, ":/");
    if idx <= 0 then None
    else
      var candidate := path[..idx];
      if '/' in candidate || '[' in candidate then None
      else if !OriginName(candidate, alnum) then None
      else Some((candidate, path[idx + 1..]))
  }

  predicate StartsWithAny(s: string, prefixes: seq<string>) {
    exists i | 0 <= i < |prefixes| :: prefixes[i] <= s
  }

  const CISCO_PREFIXES := ["Cisco-IOS-XE-", "Cisco-IOS-XR-", "Cisco-IOS-", "Cisco-NX-OS-"]
  const IETF_PREFIXES := ["ietf-", "IF-MIB", "RFC"]

  /** The origin a known YANG namespace stands for. */
  function NamespaceOrigin(ns: string): Option<string> {
    if StartsWithAny(ns, CISCO_PREFIXES) then Some("rfc7951")
    else if "openconfig" <= ns then Some("openconfig")
    else if StartsWithAny(ns, IETF_PREFIXES) then Some("rfc7951")
    else None
  }

  /** The origin implied by the YANG namespace of the first element, if it has a known one. */
  function DetectOrigin(path: string): Option<string> {
    var first := SplitOn(path, "/")[0];
    if ':' !in first then None
    else
      var ns := SplitOn(first, ":")[0];
      if '[' in ns then None else NamespaceOrigin(ns)
  }

  // ---------------------------------------------------------------- parsing

  /** One `key=value` piece; a piece without `=` adds nothing, a repeated key is overwritten. */
  function AddKey(keys: map<string, string>, kv: string): map<string, string> {
    if '=' in kv then
      FindChar(kv, '=');
      var i := Find(kv, "=");
      keys[kv[..i] := kv[i + 1..]]
    else keys
  }

  function KeysOf(kvs: seq<string>): map<string, string> {
    if kvs == [] then map[] else AddKey(KeysOf(kvs[..|kvs| - 1]), kvs[|kvs| - 1])
  }

  /** One `/`-free element: `name`, or `name[k=v]...` when it holds both brackets. */
  function ParseElement(text: string): PathElem {
    if '[' in text && ']' in text then
      FindChar(text, '[');
      var i := Find(text, "[");
      PathElem(text[..i], KeysOf(SplitOn(Strip(text[i..], {'[', ']'}), "][")))
    else PathElem(text, map[])
  }

  /** The elements of the nonempty parts, in order. */
  function Elements(parts: seq<string>): seq<PathElem> {
    if parts == [] then []
    else
      var rest := Elements(parts[..|parts| - 1]);
      var last := parts[|parts| - 1];
      if last == "" then rest else rest + [ParseElement(last)]
  }

  /** The elements a slash-separated text names. */
  function Nodes(text: string): seq<PathElem> {
    Elements(SplitOn(text, "/"))
  }

  function DropSlash(path: string): string {
    if "/" <= path then path[1..] else path
  }

  /** What `_build_path` returns. An explicit origin, even an empty one, beats every other. */
  function PathOf(path: string, origin: Option<string>, alnum: Alnum): Path {
    var split := SplitOriginPrefix(path, alnum);
    var body := DropSlash(if split.Some? then split.value.1 else path);
    var found := if split.Some? then Some(split.value.0) else DetectOrigin(body);
    Path(Nodes(body), if origin.Some? then origin.value else found.GetOr(""), "")
  }

  /** The inner loop of `_build_path`: fill the key dictionary piece by piece. */
  method ReadKeys(kvs: seq<string>) returns (keys: map<string, string>)
    ensures keys == KeysOf(kvs)
  {
    keys := map[];
    for m := 0 to |kvs|
      invariant keys == KeysOf(kvs[..m])
    {
      assert kvs[..m + 1][..m] == kvs[..m];
      if '=' in kvs[m] {
        FindChar(kvs[m], '=');
        var eq := Find(kvs[m], "=");
        keys := keys[kvs[m][..eq] := kvs[m][eq + 1..]];
      }
    }
    assert kvs[..|kvs|] == kvs;
  }

  /** `_build_path`: split off an origin, then read the elements between the slashes. */
  method BuildPath(path: string, origin: Option<string>, alnum: Alnum) returns (result: Path)
    ensures result == PathOf(path, origin, alnum)
  {
    var extracted: Option<string> := None;
    var rest := path;
    var split := SplitOriginPrefix(path, alnum);
    if split.Some? {
      extracted, rest := Some(split.value.0), split.value.1;
    }
    if "/" <= rest {
      rest := rest[1..];
    }
    if extracted.None? {
      extracted := DetectOrigin(rest);
    }
    var parts := SplitOn(rest, "/");
    var elems: seq<PathElem> := [];
    for n := 0 to |parts|
      invariant elems == Elements(parts[..n])
    {
      assert parts[..n + 1][..n] == parts[..n];
      var element := parts[n];
      if element == "" {
        continue;
      }
      if '[' in element && ']' in element {
        FindChar(element, '[');
        var open := Find(element, "[");
        var keys := ReadKeys(SplitOn(Strip(element[open..], {'[', ']'}), "]["));
        elems := elems + [PathElem(element[..open], keys)];
      } else {
        elems := elems + [PathElem(element, map[])];
      }
    }
    assert parts[..|parts|] == parts;
    result := Path(elems, if origin.Some? then origin.value else extracted.GetOr(""), "");
  }

  // ---------------------------------------------------------------- printing

  /** A path element with its keys in the order `elem.key.items()` happens to yield them. */
  datatype ListedElem = ListedElem(name: string, items: seq<(string, string)>)

  function MapOf(items: seq<(string, string)>): map<string, string> {
    if items == [] then map[]
    else
      var last := items[|items| - 1];
      MapOf(items[..|items| - 1])[last.0 := last.1]
  }

  /** `items` yields every entry of `m` exactly once, in some order. */
  ghost predicate Lists(items: seq<(string, string)>, m: map<string, string>) {
    && (forall i, j | 0 <= i < j < |items| :: items[i].0 != items[j].0)
    && MapOf(items) == m
  }

  ghost predicate Listing(ls: seq<ListedElem>, es: seq<PathElem>) {
    && |ls| == |es|
    && forall i | 0 <= i < |es| :: ls[i].name == es[i].name && Lists(ls[i].items, es[i].key)
  }

  function KvTexts(items: seq<(string, string)>): (ts: seq<string>)
    ensures |ts| == |items|
  {
    seq(|items|, i requires 0 <= i < |items| => items[i].0 + "=" + items[i].1)
  }

  function ElemText(e: ListedElem): string {
    if e.items == [] then e.name
    else e.name + "[" + Join(KvTexts(e.items), ",") + "]"
  }

  function ElemTexts(ls: seq<ListedElem>): (ts: seq<string>)
    ensures |ts| == |ls|
  {
    seq(|ls|, i requires 0 <= i < |ls| => ElemText(ls[i]))
  }

  /** What `_path_to_string` returns for this listing of the path's elements. */
  function PathText(ls: seq<ListedElem>): string {
    "/" + Join(ElemTexts(ls), "/")
  }

  /** `_path_to_string`, as the source's loop over the elements. */
  method PathToString(ls: seq<ListedElem>) returns (text: string)
    ensures text == PathText(ls)
  {
    var parts: seq<string> := [];
    for n := 0 to |ls|
      invariant parts == ElemTexts(ls[..n])
    {
      if ls[n].items != [] {
        var keys := Join(KvTexts(ls[n].items), ",");
        parts := parts + [ls[n].name + "[" + keys + "]"];
      } else {
        parts := parts + [ls[n].name];
      }
    }
    assert ls[..|ls|] == ls;
    text := "/" + Join(parts, "/");
  }
}
