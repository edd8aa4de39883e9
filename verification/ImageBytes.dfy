/**
 The version scan on the bytes of an image file: where the marker may stand, which bytes it is made
 of, which bytes are stripped and which end a platform tag.
 */
module ImageBytes {
  import opened Wrappers
  import opened PyStr
  import opened Bytes
  import opened ImageVersion

  /** `CW_FULL_VERSION=$` in ASCII. */
  const MARKER_BYTES: seq<byte> := [67, 87, 95, 70, 85, 76, 76, 95, 86, 69, 82, 83, 73, 79, 78, 61, 36]

  /** The text has the number of every byte at its place. */
  ghost predicate Spells(bytes: seq<byte>, text: string) {
    |bytes| == |text| && forall i | 0 <= i < |bytes| :: text[i] as int == bytes[i] as int
  }

  ghost predicate Blank(b: byte) {
    9 <= b <= 13 || 28 <= b <= 32 || b == 133 || b == 160
  }

  ghost predicate AllBlank(bytes: seq<byte>) {
    forall i | 0 <= i < |bytes| :: Blank(bytes[i])
  }

  /** The name of a platform: ASCII digits, letters and underscores. */
  ghost predicate Platform(bytes: seq<byte>) {
    bytes != [] && forall i | 0 <= i < |bytes| ::
      48 <= bytes[i] <= 57 || 65 <= bytes[i] <= 90 || bytes[i] == 95 || 97 <= bytes[i] <= 122
  }

  ghost predicate OpensAt(bytes: seq<byte>, i: int) {
    0 <= i <= |bytes| - 17 && bytes[i..i + 17] == MARKER_BYTES
  }

  /** The marker's bytes occur nowhere in it. */
  ghost predicate Unmarked(bytes: seq<byte>) {
    forall i :: !OpensAt(bytes, i)
  }

  /** A marker at `i` that closes at `j` around a body, all within the first 8192 bytes. */
  ghost predicate MarkedAt(bytes: seq<byte>, i: int, j: int) {
    OpensAt(bytes, i) && i + 17 < j < |bytes| && j < 8192 && bytes[j] == 36 && 36 !in bytes[i + 17..j]
  }

  // ---------------------------------------------------------------- bytes as text

  lemma DecodeSpells(bytes: seq<byte>)
    ensures Spells(bytes, Decode(bytes))
  {
  }

  lemma DecodeAppend(a: seq<byte>, b: seq<byte>)
    ensures Decode(a + b) == Decode(a) + Decode(b)
  {
  }

  lemma DecodeMarker()
    ensures Decode(MARKER_BYTES) == MARKER && |MARKER| == 17
  {
  }

  lemma DecodeInjective(a: seq<byte>, b: seq<byte>)
    requires Decode(a) == Decode(b)
    ensures a == b
  {
    DecodeSpells(a);
    DecodeSpells(b);
  }

  lemma DecodeSlice(bytes: seq<byte>, i: nat, j: nat)
    requires i <= j <= |bytes|
    ensures Decode(bytes)[i..j] == Decode(bytes[i..j])
  {
  }

  /** The header is the text of the first 8192 bytes. */
  lemma HeaderIs(bytes: seq<byte>)
    ensures HeaderText(bytes) == Decode(if |bytes| <= 8192 then bytes else bytes[..8192])
  {
  }

  lemma DollarFree(bytes: seq<byte>)
    ensures 36 in bytes <==> '$' in Decode(bytes)
  {
    DecodeSpells(bytes);
    if 36 in bytes {
      var i :| 0 <= i < |bytes| && bytes[i] == 36;
      assert Decode(bytes)[i] == '$';
    }
  }

  lemma BlankIsWhitespace(b: byte)
    ensures Blank(b) <==> b as char in WHITESPACE
  {
  }

  lemma PlatformIsWord(bytes: seq<byte>)
    ensures Platform(bytes) <==> Word(Decode(bytes))
  {
    forall i | 0 <= i < |bytes|
      ensures WordChar(Decode(bytes)[i]) <==>
        48 <= bytes[i] <= 57 || 65 <= bytes[i] <= 90 || bytes[i] == 95 || 97 <= bytes[i] <= 122
    {
    }
  }

  // ---------------------------------------------------------------- the window

  /** Nothing behind the first 8192 bytes is looked at. */
  lemma WindowOnly(bytes: seq<byte>)
    requires |bytes| >= 8192
    ensures ExtractVersion(Contents(bytes)) == ExtractVersion(Contents(bytes[..8192]))
  {
    HeaderIs(bytes);
    HeaderIs(bytes[..8192]);
    assert |bytes| == 8192 ==> bytes[..8192] == bytes;
  }

  lemma MarkerBytes(bytes: seq<byte>, i: int, j: int)
    ensures MarkedAt(bytes, i, j) <==> MarkerAt(HeaderText(bytes), i, j)
  {
    HeaderIs(bytes);
    DecodeMarker();
    var window := if |bytes| <= 8192 then bytes else bytes[..8192];
    var text := Decode(window);
    if 0 <= i && i + 17 < j < |window| {
      DecodeSlice(window, i, i + 17);
      DecodeSlice(window, i + 17, j);
      assert window[i..i + 17] == bytes[i..i + 17] && window[i + 17..j] == bytes[i + 17..j];
      if text[i..i + 17] == MARKER {
        DecodeInjective(window[i..i + 17], MARKER_BYTES);
      }
      DollarFree(window[i + 17..j]);
      DecodeSpells(window);
      assert text[j] == '$' <==> bytes[j] == 36;
    }
  }

  /** The scan of a readable image fails if and only if its first 8192 bytes hold no marker. */
  lemma FailsExactly(bytes: seq<byte>)
    ensures ExtractVersion(Contents(bytes)) == Err(NoMarker) <==> forall i, j :: !MarkedAt(bytes, i, j)
    ensures ExtractVersion(Contents(bytes)).Err? ==> ExtractVersion(Contents(bytes)) == Err(NoMarker)
  {
    forall i, j ensures MarkedAt(bytes, i, j) <==> MarkerAt(HeaderText(bytes), i, j) {
      MarkerBytes(bytes, i, j);
    }
  }

  lemma MarkerEnds()
    ensures |MARKER_BYTES| == 17 && MARKER_BYTES[16] == 36 && forall k | 0 <= k < 16 :: MARKER_BYTES[k] != 36
  {
  }

  lemma OpensInside(pre: seq<byte>, rest: seq<byte>, i: int)
    requires OpensAt(pre + rest, i) && i + 17 <= |pre|
    ensures OpensAt(pre, i)
  {
    assert (pre + rest)[i..i + 17] == pre[i..i + 17];
  }

  /** The marker has no border, so it cannot start before an occurrence and reach into it. */
  lemma NoStraddling(pre: seq<byte>, rest: seq<byte>, i: int)
    requires |pre| - 17 < i < |pre|
    ensures !OpensAt(pre + (MARKER_BYTES + rest), i)
  {
    var bytes := pre + (MARKER_BYTES + rest);
    MarkerEnds();
    if 0 <= i {
      assert bytes[i..i + 17][16] == bytes[i + 16] == MARKER_BYTES[i + 16 - |pre|];
    }
  }

  lemma NotOpenedBefore(bytes: seq<byte>, pre: seq<byte>, rest: seq<byte>, i: int)
    requires bytes == pre + (MARKER_BYTES + rest) && Unmarked(pre) && OpensAt(bytes, i)
    ensures i >= |pre|
  {
    if i + 17 <= |pre| {
      OpensInside(pre, MARKER_BYTES + rest, i);
    } else if i < |pre| {
      NoStraddling(pre, rest, i);
    }
  }

  lemma Regroup(pre: seq<byte>, body: seq<byte>, post: seq<byte>)
    ensures pre + MARKER_BYTES + body + [36] + post == pre + (MARKER_BYTES + (body + [36] + post))
  {
  }

  lemma BodyHasNoDollar(bytes: seq<byte>, pre: seq<byte>, body: seq<byte>, post: seq<byte>)
    requires bytes == pre + MARKER_BYTES + body + [36] + post && 36 !in body
    ensures forall j | |pre| + 17 <= j < |pre| + 17 + |body| :: bytes[j] != 36
  {
    assert forall j | |pre| + 17 <= j < |pre| + 17 + |body| :: bytes[j] == body[j - |pre| - 17];
  }

  /** A marker whose closing `$` stands behind them is not found. */
  lemma ClosedTooLate(bytes: seq<byte>, pre: seq<byte>, body: seq<byte>, post: seq<byte>)
    requires bytes == pre + MARKER_BYTES + body + [36] + post
    requires 36 !in body && |pre| + 17 + |body| >= 8192 && Unmarked(pre)
    ensures ExtractVersion(Contents(bytes)) == Err(NoMarker)
  {
    FailsExactly(bytes);
    BodyHasNoDollar(bytes, pre, body, post);
    Regroup(pre, body, post);
    forall i, j ensures !MarkedAt(bytes, i, j) {
      if MarkedAt(bytes, i, j) {
        NotOpenedBefore(bytes, pre, body + [36] + post, i);
      }
    }
  }

  // ---------------------------------------------------------------- what is returned

  lemma FirstMarkAt(bytes: seq<byte>, pre: seq<byte>, body: seq<byte>, post: seq<byte>)
    requires bytes == pre + MARKER_BYTES + body + [36] + post
    requires body != [] && 36 !in body && |pre| + 17 + |body| < 8192
    ensures var j := |pre| + 17 + |body|; MarkedAt(bytes, |pre|, j) && bytes[|pre| + 17..j] == body
  {
    var i, j := |pre|, |pre| + 17 + |body|;
    assert bytes[i..i + 17] == MARKER_BYTES;
    assert bytes[i + 17..j] == body;
    assert bytes[j] == 36;
  }

  lemma NoneBefore(bytes: seq<byte>, pre: seq<byte>, body: seq<byte>, post: seq<byte>)
    requires bytes == pre + MARKER_BYTES + body + [36] + post && Unmarked(pre)
    ensures forall k, l | k < |pre| :: !MarkerAt(HeaderText(bytes), k, l)
  {
    Regroup(pre, body, post);
    forall k, l | k < |pre| ensures !MarkerAt(HeaderText(bytes), k, l) {
      MarkerBytes(bytes, k, l);
      if MarkedAt(bytes, k, l) {
        NotOpenedBefore(bytes, pre, body + [36] + post, k);
      }
    }
  }

  lemma BodyText(bytes: seq<byte>, i: nat, j: nat)
    requires i + 17 < j < |bytes| && j < 8192
    ensures j < |HeaderText(bytes)| && HeaderText(bytes)[i + 17..j] == Decode(bytes[i + 17..j])
  {
    HeaderIs(bytes);
    var window := if |bytes| <= 8192 then bytes else bytes[..8192];
    DecodeSlice(window, i + 17, j);
    assert window[i + 17..j] == bytes[i + 17..j];
  }

  /** The first marker of the file is the one whose body is returned. */
  lemma FirstBody(bytes: seq<byte>, pre: seq<byte>, body: seq<byte>, post: seq<byte>)
    requires bytes == pre + MARKER_BYTES + body + [36] + post
    requires body != [] && 36 !in body && |pre| + 17 + |body| < 8192 && Unmarked(pre)
    ensures ExtractVersion(Contents(bytes)) == Ok(DropTag(Strip(Decode(body), WHITESPACE), 0))
  {
    var i, j := |pre|, |pre| + 17 + |body|;
    FirstMarkAt(bytes, pre, body, post);
    MarkerBytes(bytes, i, j);
    NoneBefore(bytes, pre, body, post);
    BodyText(bytes, i, j);
    DecodeMarker();
    ResultOfMatch(bytes, i, j, Decode(body));
  }

  lemma BlankText(bytes: seq<byte>)
    ensures forall i | 0 <= i < |bytes| :: Blank(bytes[i]) <==> Decode(bytes)[i] in WHITESPACE
  {
    forall i | 0 <= i < |bytes| ensures Blank(bytes[i]) <==> Decode(bytes)[i] in WHITESPACE {
      BlankIsWhitespace(bytes[i]);
    }
  }

  lemma StripBlank(l: seq<byte>, core: seq<byte>, r: seq<byte>)
    requires AllBlank(l) && AllBlank(r)
    requires core != [] && !Blank(core[0]) && !Blank(core[|core| - 1])
    ensures Strip(Decode(l + core + r), WHITESPACE) == Decode(core)
  {
    BlankText(l);
    BlankText(core);
    BlankText(r);
    DecodeAppend(l, core);
    DecodeAppend(l + core, r);
    StripCore(Decode(l), Decode(core), Decode(r), WHITESPACE);
  }

  lemma TaggedText(v: seq<byte>, word: seq<byte>)
    requires Platform(word)
    ensures DropTag(Decode(v + [46, 46] + word), 0) == Decode(v)
  {
    DecodeAppend(v + [46, 46], word);
    DecodeAppend(v, [46, 46]);
    assert Decode([46, 46]) == "..";
    PlatformIsWord(word);
    DropTagExact(Decode(v), Decode(word));
  }

  lemma TaggedBody(l: seq<byte>, v: seq<byte>, word: seq<byte>, r: seq<byte>)
    requires AllBlank(l) && AllBlank(r) && 36 !in v && (v != [] ==> !Blank(v[0])) && Platform(word)
    ensures var body := l + v + [46, 46] + word + r; var core := v + [46, 46] + word;
      body == l + core + r && 36 !in body && !Blank(core[0]) && !Blank(core[|core| - 1])
  {
    var core := v + [46, 46] + word;
    assert core[|core| - 1] == word[|word| - 1];
    assert core[0] == if v == [] then 46 else v[0];
    assert l + v + [46, 46] + word + r == l + core + r;
    assert 36 !in core && 36 !in l && 36 !in r;
  }

  /**
   An image whose first marker, closing within the first 8192 bytes, reads `v..PLATFORM` between
   any blanks yields exactly `v`.
   */
  lemma VersionOfBytes(bytes: seq<byte>, pre: seq<byte>, l: seq<byte>, v: seq<byte>, word: seq<byte>,
                       r: seq<byte>, post: seq<byte>) returns (text: string)
    requires bytes == pre + MARKER_BYTES + (l + v + [46, 46] + word + r) + [36] + post
    requires |bytes| - |post| <= 8192 && Unmarked(pre)
    requires AllBlank(l) && AllBlank(r) && 36 !in v && (v != [] ==> !Blank(v[0])) && Platform(word)
    ensures Spells(v, text) && ExtractVersion(Contents(bytes)) == Ok(text)
  {
    TaggedBody(l, v, word, r);
    FirstBody(bytes, pre, l + v + [46, 46] + word + r, post);
    StripBlank(l, v + [46, 46] + word, r);
    TaggedText(v, word);
    text := Decode(v);
    DecodeSpells(v);
  }

  lemma TagMeansPlatform(core: seq<byte>, i: nat)
    requires TagAt(Decode(core), i)
    ensures i < |core| - 2 && core[i] == 46 && core[i + 1] == 46 && Platform(core[i + 2..])
  {
    var text := Decode(core);
    DecodeSpells(core);
    TagShape(text, i);
    DecodeSlice(core, i + 2, |core|);
    assert core[i + 2..|core|] == core[i + 2..] && text[i + 2..|core|] == text[i + 2..];
    PlatformIsWord(core[i + 2..]);
  }

  lemma UntaggedText(core: seq<byte>)
    requires forall i | 0 <= i < |core| - 2 && core[i] == 46 && core[i + 1] == 46 :: !Platform(core[i + 2..])
    ensures DropTag(Decode(core), 0) == Decode(core)
  {
    forall i: nat ensures !TagAt(Decode(core), i) {
      if TagAt(Decode(core), i) {
        TagMeansPlatform(core, i);
      }
    }
  }

  /** A body without such a tag at its end is returned whole, less the blanks around it. */
  lemma UntaggedBytes(bytes: seq<byte>, pre: seq<byte>, l: seq<byte>, core: seq<byte>,
                      r: seq<byte>, post: seq<byte>) returns (text: string)
    requires bytes == pre + MARKER_BYTES + (l + core + r) + [36] + post
    requires |bytes| - |post| <= 8192 && Unmarked(pre)
    requires AllBlank(l) && AllBlank(r) && 36 !in core
    requires core != [] && !Blank(core[0]) && !Blank(core[|core| - 1])
    requires forall i | 0 <= i < |core| - 2 && core[i] == 46 && core[i + 1] == 46 :: !Platform(core[i + 2..])
    ensures Spells(core, text) && ExtractVersion(Contents(bytes)) == Ok(text)
  {
    assert 36 !in l + core + r;
    FirstBody(bytes, pre, l + core + r, post);
    StripBlank(l, core, r);
    UntaggedText(core);
    text := Decode(core);
    DecodeSpells(core);
  }
}
