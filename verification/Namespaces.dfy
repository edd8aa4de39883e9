/**
 The origin a path gets without being given one: the table of YANG namespaces, for every text and
 with or without a leading slash.
 */
module Namespaces {
  import opened Wrappers
  import opened PyStr
  import opened GnmiPath
  import opened PathLaws

  lemma RootedOrigin(p: string, alnum: Alnum)
    requires !("/" <= p)
    ensures PathOf("/" + p, None, alnum).origin == DetectOrigin(p).GetOr("")
  {
    RootedHasNoPrefix("/" + p, alnum);
    assert ("/" + p)[1..] == p;
  }

  /** A leading slash makes no difference to the detected origin. */
  lemma SlashKeepsOrigin(p: string, alnum: Alnum)
    requires !("/" <= p) && SplitOriginPrefix(p, alnum).None?
    ensures PathOf("/" + p, None, alnum).origin == PathOf(p, None, alnum).origin
  {
    RootedOrigin(p, alnum);
    DetectedOrigin(p, alnum);
  }

  lemma NamespaceTable(ns: string)
    ensures NamespaceOrigin(ns) ==
      if "Cisco-IOS-XE-" <= ns || "Cisco-IOS-XR-" <= ns || "Cisco-IOS-" <= ns || "Cisco-NX-OS-" <= ns
      then Some("rfc7951")
      else if "openconfig" <= ns then Some("openconfig")
      else if "ietf-" <= ns || "IF-MIB" <= ns || "RFC" <= ns then Some("rfc7951")
      else None
  {
    assert CISCO_PREFIXES[0] == "Cisco-IOS-XE-" && CISCO_PREFIXES[1] == "Cisco-IOS-XR-";
    assert CISCO_PREFIXES[2] == "Cisco-IOS-" && CISCO_PREFIXES[3] == "Cisco-NX-OS-" && |CISCO_PREFIXES| == 4;
    assert IETF_PREFIXES[0] == "ietf-" && IETF_PREFIXES[1] == "IF-MIB" && IETF_PREFIXES[2] == "RFC";
  }

  /** The table is consulted for exactly that namespace, with or without a slash. */
  lemma NamespaceConsulted(ns: string, rest: string, alnum: Alnum)
    requires Free(ns, {'/', ':', '['})
    ensures PathOf("/" + ns + ":" + rest, None, alnum).origin == NamespaceOrigin(ns).GetOr("")
    ensures !("/" <= rest) ==> PathOf(ns + ":" + rest, None, alnum).origin == NamespaceOrigin(ns).GetOr("")
  {
    var p := ns + ":" + rest;
    assert "/" + ns + ":" + rest == "/" + p;
    assert p[0] != '/';
    DetectsNamespace(ns, rest);
    RootedOrigin(p, alnum);
    if !("/" <= rest) {
      assert ':' !in ns;
      NamespaceIsNoPrefix(ns, rest, alnum);
      DetectedOrigin(p, alnum);
    }
  }

  /** In a text with an origin prefix the first of `:`, `/` and `[` is a colon, with a slash behind it. */
  lemma PrefixShape(path: string, alnum: Alnum) returns (n: nat)
    requires SplitOriginPrefix(path, alnum).Some?
    ensures n + 1 < |path| && path[n] == ':' && path[n + 1] == '/'
    ensures forall i | 0 <= i < n :: path[i] !in {':', '/', '['}
  {
    var (o, rest) := SplitOriginPrefix(path, alnum).value;
    PrefixExactly(path, o, rest, alnum);
    n := |o|;
    assert forall i | 0 <= i < n :: path[i] == o[i];
  }

  /** Text with a namespace is never read as `origin:/path` unless the slash follows the colon. */
  lemma NamespaceIsNoPrefix(ns: string, rest: string, alnum: Alnum)
    requires ':' !in ns && !("/" <= rest)
    ensures SplitOriginPrefix(ns + ":" + rest, alnum).None?
  {
    var path := ns + ":" + rest;
    assert path[|ns|] == ':' && path[|ns| + 1..] == rest;
    assert forall i | 0 <= i < |ns| :: path[i] == ns[i];
    if SplitOriginPrefix(path, alnum).Some? {
      var n := PrefixShape(path, alnum);
      assert false;
    }
  }

  /**
   The namespace in front of the first colon of the first element decides the origin, with or
   without a leading slash: `openconfig` for itself, `rfc7951` for Cisco and standards-body models,
   and none for any other, such as `native`.
   */
  lemma NamespaceDecides(ns: string, rest: string, alnum: Alnum)
    requires Free(ns, {'/', ':', '['})
    ensures var origin := PathOf("/" + ns + ":" + rest, None, alnum).origin;
      && (!("/" <= rest) ==> PathOf(ns + ":" + rest, None, alnum).origin == origin)
      && (("Cisco-IOS-XE-" <= ns || "Cisco-IOS-XR-" <= ns || "Cisco-IOS-" <= ns || "Cisco-NX-OS-" <= ns)
            ==> origin == "rfc7951")
      && ("openconfig" <= ns ==> origin == "openconfig")
      && ("ietf-" <= ns || "IF-MIB" <= ns || "RFC" <= ns ==> origin == "rfc7951")
      && (origin == "" || origin == "openconfig" || origin == "rfc7951")
      && (origin == "" <==>
            && !("Cisco-IOS-XE-" <= ns || "Cisco-IOS-XR-" <= ns || "Cisco-IOS-" <= ns || "Cisco-NX-OS-" <= ns)
            && !("openconfig" <= ns) && !("ietf-" <= ns || "IF-MIB" <= ns || "RFC" <= ns))
  {
    NamespaceConsulted(ns, rest, alnum);
    NamespaceTable(ns);
    FirstLetters(ns);
  }

  /** No namespace is listed under two origins. */
  lemma FirstLetters(ns: string)
    ensures "openconfig" <= ns ==> ns[0] == 'o'
    ensures "ietf-" <= ns || "IF-MIB" <= ns || "RFC" <= ns ==> ns[0] == 'i' || ns[0] == 'I' || ns[0] == 'R'
    ensures "Cisco-IOS-XE-" <= ns || "Cisco-IOS-XR-" <= ns || "Cisco-IOS-" <= ns || "Cisco-NX-OS-" <= ns
      ==> ns[0] == 'C'
  {
  }

  /**
   All remaining texts: where the first element ends, or a key bracket opens, before any colon, no
   origin is detected. Together with `NamespaceDecides` this covers every path without a prefix.
   */
  lemma NoNamespaceNoOrigin(head: string, tail: string, alnum: Alnum)
    requires Free(head, {'/', ':', '['}) && (tail == "" || tail[0] == '/' || tail[0] == '[')
    requires !("/" <= head + tail)
    ensures PathOf("/" + (head + tail), None, alnum).origin == ""
    ensures PathOf(head + tail, None, alnum).origin == ""
  {
    var p := head + tail;
    NotDetected(head, tail);
    RootedOrigin(p, alnum);
    assert forall i | 0 <= i < |head| :: p[i] == head[i];
    assert tail != "" ==> p[|head|] == tail[0];
    if SplitOriginPrefix(p, alnum).Some? {
      var n := PrefixShape(p, alnum);
      assert false;
    }
    DetectedOrigin(p, alnum);
  }

  lemma NotDetected(head: string, tail: string)
    requires Free(head, {'/', ':', '['}) && (tail == "" || tail[0] == '/' || tail[0] == '[')
    ensures DetectOrigin(head + tail) == None
  {
    var p := head + tail;
    assert '/' !in head && ':' !in head;
    if tail == "" {
      assert p == head;
      FirstPart(head, '/', "");
    } else if tail[0] == '/' {
      assert p == head + "/" + tail[1..];
      FirstPart(head, '/', tail[1..]);
    } else {
      BracketFirst(head, tail);
    }
  }

  /** The first element starts with `head[`, so what stands before its first colon holds the bracket. */
  lemma BracketFirst(head: string, tail: string)
    requires Free(head, {'/', ':', '['}) && tail != "" && tail[0] == '['
    ensures DetectOrigin(head + tail) == None
  {
    var p := head + tail;
    var first := SplitOn(p, "/")[0];
    assert p[|head|] == '[' && forall i | 0 <= i < |head| :: p[i] == head[i];
    FirstReaches(p, '/', |head|);
    if ':' in first {
      FirstReaches(first, ':', |head|);
    }
  }

  /** The first part of a split reaches past every position before the first separator. */
  lemma FirstReaches(s: string, c: char, k: nat)
    requires k < |s| && forall i | 0 <= i <= k :: s[i] != c
    ensures k < |SplitOn(s, [c])[0]| && SplitOn(s, [c])[0] <= s
  {
    FindChar(s, c);
  }
}
