/**
 The version scan of an IOS XE image header: the leftmost `CW_FULL_VERSION=$body$` within the
 first 8192 bytes, stripped, without one trailing `..PLATFORM` tag.
 */
module ImageVersion {
  import opened Wrappers
  import opened PyStr
  import opened Bytes

  const MARKER := "CW_FULL_VERSION=$"
  const HEADER_BYTES := 8192

  /** Latin-1 maps each byte to the character with the same number. */
  function Decode(bytes: seq<byte>): (text: string)
    ensures |text| == |bytes|
  {
    seq(|bytes|, i requires 0 <= i < |bytes| => bytes[i] as char)
  }

  /** The characters below 256 that Python's `str.strip()` removes. */
  const WHITESPACE: set<char> :=
    {'\t', '\n', '\U{0b}', '\U{0c}', '\r', '\U{1c}', '\U{1d}', '\U{1e}', '\U{1f}', ' ', '\U{85}', '\U{a0}'}

  // ---------------------------------------------------------------- the marker

  /** A match of the marker pattern at `i`: the body lies before the closing `$` at `j`. */
  ghost predicate MarkerAt(text: string, i: int, j: int) {
    && MatchesAt(text, MARKER, i)
    && i + |MARKER| < j < |text| && text[j] == '$'
    && '$' !in text[i + |MARKER|..j]
  }

  /** The match that starts at `i`, if any: the next `$` closes it and must leave a body. */
  function MatchAt(text: string, i: nat): (r: Option<nat>)
    ensures r.Some? ==> MarkerAt(text, i, r.value)
    ensures r.None? ==> forall j :: !MarkerAt(text, i, j)
  {
    if i + |MARKER| <= |text| && text[i..i + |MARKER|] == MARKER then
      var start := i + |MARKER|;
      var close := Find(text[start..], "$");
      FindChar(text[start..], '$');
      if close <= 0 then
        assert forall j | start < j < |text| && text[j] == '$' && close == 0 :: text[start..j][0] == '$';
        assert forall j | start < j < |text| :: text[j] == text[start..][j - start];
        None
      else
        assert text[start..start + close] == text[start..][..close];
        Some(start + close)
    else None
  }

  /** The regular-expression search: the leftmost match, as start and closing position. */
  function Search(text: string, from: nat): (r: Option<(nat, nat)>)
    ensures r.Some? ==> from <= r.value.0 && MarkerAt(text, r.value.0, r.value.1)
    ensures r.Some? ==> forall i, j | from <= i < r.value.0 :: !MarkerAt(text, i, j)
    ensures r.None? ==> forall i, j | from <= i :: !MarkerAt(text, i, j)
    decreases |text| - from
  {
    if from >= |text| then None
    else
      var m := MatchAt(text, from);
      if m.Some? then Some((from, m.value)) else Search(text, from + 1)
  }

  lemma NoDollarInside(text: string, i: int, j: int)
    requires MarkerAt(text, i, j)
    ensures forall k | i + |MARKER| <= k < j :: text[k] != '$'
  {
    var start := i + |MARKER|;
    assert forall k | start <= k < j :: text[k] == text[start..j][k - start];
  }

  lemma MatchUnique(text: string, i: int, j: int, k: int)
    requires MarkerAt(text, i, j) && MarkerAt(text, i, k)
    ensures j == k
  {
    NoDollarInside(text, i, j);
    NoDollarInside(text, i, k);
  }

  // ---------------------------------------------------------------- the platform tag

  predicate WordChar(c: char) {
    'a' <= c <= 'z' || 'A' <= c <= 'Z' || '0' <= c <= '9' || c == '_'
  }

  predicate Word(s: string) {
    s != "" && forall i | 0 <= i < |s| :: WordChar(s[i])
  }

  predicate TagAt(s: string, i: nat) {
    i + 2 < |s| && s[i..i + 2] == ".." && Word(s[i + 2..])
  }

  /** Cut at the leftmost `..PLATFORM` that ends the text; nothing to cut leaves the text alone. */
  function DropTag(s: string, from: nat): (r: string)
    requires from <= |s|
    ensures
      || (exists i: nat :: from <= i && TagAt(s, i) && r == s[..i])
      || (r == s && forall i: nat | from <= i :: !TagAt(s, i))
    decreases |s| - from
  {
    if TagAt(s, from) then s[..from]
    else if from == |s| then s
    else DropTag(s, from + 1)
  }

  lemma TagShape(s: string, i: nat)
    requires TagAt(s, i)
    ensures s[i] == s[i + 1] == '.' && forall k | i + 2 <= k < |s| :: WordChar(s[k])
  {
    assert s[i..i + 2][0] == s[i] && s[i..i + 2][1] == s[i + 1];
    assert forall k | i + 2 <= k < |s| :: s[k] == s[i + 2..][k - (i + 2)];
  }

  /** At most one position carries a tag: the tag's word holds no dot. */
  lemma TagUnique(s: string, i: nat, j: nat)
    requires TagAt(s, i) && TagAt(s, j)
    ensures i == j
  {
    TagShape(s, i);
    TagShape(s, j);
  }

  /** Exactly one tag is removed: whatever stands before `..WORD` is returned, tags and all. */
  lemma DropTagExact(v: string, word: string)
    requires Word(word)
    ensures DropTag(v + ".." + word, 0) == v
  {
    var s := v + ".." + word;
    assert s[|v|..|v| + 2] == ".." && s[|v| + 2..] == word;
    assert TagAt(s, |v|);
    var i: nat :| TagAt(s, i) && DropTag(s, 0) == s[..i];
    TagUnique(s, i, |v|);
  }

  /** A text either ends in a tag, which is dropped, or has no tag at its end and is kept. */
  lemma DropTagCases(body: string)
    ensures var r := DropTag(body, 0);
      && (r == body || exists word :: Word(word) && body == r + ".." + word)
      && (r == body ==> forall v, word | Word(word) :: body != v + ".." + word)
  {
    var r := DropTag(body, 0);
    if r != body {
      var t: nat :| TagAt(body, t) && r == body[..t];
      assert body == r + ".." + body[t + 2..];
    } else {
      forall v, word | Word(word) ensures body != v + ".." + word {
        if body == v + ".." + word {
          DropTagExact(v, word);
        }
      }
    }
  }

  // ---------------------------------------------------------------- the whole scan

  datatype ScanError = Unreadable | NoMarker

  datatype ImageFile = Contents(bytes: seq<byte>) | ReadError

  function HeaderText(bytes: seq<byte>): string {
    Decode(if |bytes| <= HEADER_BYTES then bytes else bytes[..HEADER_BYTES])
  }

  /** `_extract_image_version`. */
  function ExtractVersion(image: ImageFile): (r: Result<string, ScanError>)
    ensures r.Err? && r.error.NoMarker? <==>
      image.Contents? && forall i, j :: !MarkerAt(HeaderText(image.bytes), i, j)
    ensures r.Err? && r.error.Unreadable? <==> image.ReadError?
  {
    match image
    case ReadError => Err(Unreadable)
    case Contents(bytes) =>
      var text := HeaderText(bytes);
      var m := Search(text, 0);
      if m.None? then Err(NoMarker)
      else
        var body := text[m.value.0 + |MARKER|..m.value.1];
        Ok(DropTag(Strip(body, WHITESPACE), 0))
  }

  /** What the returned version is: the leftmost match's stripped body, less at most one tag. */
  lemma VersionOfMatch(bytes: seq<byte>, i: int, j: int)
    requires MarkerAt(HeaderText(bytes), i, j)
    requires forall i', j' | i' < i :: !MarkerAt(HeaderText(bytes), i', j')
    ensures var body := Strip(HeaderText(bytes)[i + |MARKER|..j], WHITESPACE);
      var r := ExtractVersion(Contents(bytes));
      && r.Ok?
      && (r.value == body || exists word :: Word(word) && body == r.value + ".." + word)
      && (r.value == body ==> forall v, word | Word(word) :: body != v + ".." + word)
  {
    var text := HeaderText(bytes);
    var m := Search(text, 0);
    MatchUnique(text, i, j, m.value.1);
    DropTagCases(Strip(text[i + |MARKER|..j], WHITESPACE));
  }

  /** The leftmost match gives the result. */
  lemma ResultOfMatch(bytes: seq<byte>, i: nat, j: nat, body: string)
    requires MarkerAt(HeaderText(bytes), i, j) && HeaderText(bytes)[i + |MARKER|..j] == body
    requires forall k, l | k < i :: !MarkerAt(HeaderText(bytes), k, l)
    ensures ExtractVersion(Contents(bytes)) == Ok(DropTag(Strip(body, WHITESPACE), 0))
  {
    MatchUnique(HeaderText(bytes), i, j, Search(HeaderText(bytes), 0).value.1);
  }

  /** The body of a well-formed marker survives stripping unchanged. */
  lemma StripBody(v: string, word: string)
    requires Word(word) && (v == "" || v[0] !in WHITESPACE)
    ensures Strip(v + ".." + word, WHITESPACE) == v + ".." + word
  {
    var body := v + ".." + word;
    assert WordChar(word[|word| - 1]);
    assert body[|body| - 1] == word[|word| - 1];
    assert "" + body + "" == body;
    StripCore("", body, "", WHITESPACE);
  }

  lemma TagDropped(v: string, word: string)
    requires Word(word) && (v == "" || v[0] !in WHITESPACE)
    ensures DropTag(Strip(v + ".." + word, WHITESPACE), 0) == v
  {
    StripBody(v, word);
    DropTagExact(v, word);
  }

  lemma MarkerShape(pre: string, v: string, word: string, post: string, text: string)
    requires text == pre + MARKER + v + ".." + word + "$" + post
    requires '$' !in v && Word(word)
    ensures var j := |pre| + |MARKER| + |v| + 2 + |word|;
      MarkerAt(text, |pre|, j) && text[|pre| + |MARKER|..j] == v + ".." + word
  {
    var start := |pre| + |MARKER|;
    var body := v + ".." + word;
    assert text == pre + MARKER + body + "$" + post;
    assert text[|pre|..start] == MARKER;
    assert text[start..start + |body|] == body;
    assert '$' !in word && '$' !in body;
  }

  /**
   For an image whose first marker is `CW_FULL_VERSION=$v..PLAT$`, closing inside the scanned
   header, the scan returns exactly `v`.
   */
  lemma ExtractsVersion(bytes: seq<byte>, pre: string, v: string, word: string, post: string)
    requires HeaderText(bytes) == pre + MARKER + v + ".." + word + "$" + post
    requires '$' !in v && (v == "" || v[0] !in WHITESPACE) && Word(word)
    requires forall i, j | i < |pre| :: !MarkerAt(HeaderText(bytes), i, j)
    ensures ExtractVersion(Contents(bytes)) == Ok(v)
  {
    MarkerShape(pre, v, word, post, HeaderText(bytes));
    ResultOfMatch(bytes, |pre|, |pre| + |MARKER| + |v| + 2 + |word|, v + ".." + word);
    TagDropped(v, word);
  }

  /** The marker has no border: it cannot start inside text before it and end inside it. */
  lemma NoStraddle(pre: string, rest: string)
    requires forall i :: !MatchesAt(pre, MARKER, i)
    ensures forall i | i < |pre| :: !MatchesAt(pre + MARKER + rest, MARKER, i)
  {
    var text := pre + MARKER + rest;
    MatchLast(text, MARKER);
    forall i | 0 <= i < |pre| ensures !MatchesAt(text, MARKER, i) {
      var end := i + |MARKER|;
      assert !MatchesAt(pre, MARKER, i);
      assert end <= |pre| ==> text[i..end] == pre[i..end];
      assert end > |pre| ==> text[end - 1] == MARKER[end - 1 - |pre|] != '$';
    }
  }

  /** It is enough that the text before the marker does not contain the marker's own words. */
  lemma ExtractsFirstVersion(bytes: seq<byte>, pre: string, v: string, word: string, post: string)
    requires HeaderText(bytes) == pre + MARKER + v + ".." + word + "$" + post
    requires '$' !in v && (v == "" || v[0] !in WHITESPACE) && Word(word)
    requires Find(pre, MARKER) == -1
    ensures ExtractVersion(Contents(bytes)) == Ok(v)
  {
    var rest := v + ".." + word + "$" + post;
    assert HeaderText(bytes) == pre + MARKER + rest;
    NoStraddle(pre, rest);
    ExtractsVersion(bytes, pre, v, word, post);
  }
}
