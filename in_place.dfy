/**
 * The in-place marker format: a base64 frame wrapped in a prefix that names
 * the generation and a suffix that names the rendering style, with an
 * optional `💡hint💡` header in front of the frame. All positions are in
 * UTF-16 code units; the lock 🔐 (U+1F510) and the light bulb 💡 (U+1F4A1)
 * are two units each and share their first unit.
 */
module InPlace {
  import opened Wrappers
  import opened JsText

  const Percent: CodeUnit := 0x25
  const Space: CodeUnit := 0x20
  const Alpha: CodeUnit := 0x3B1
  const Beta: CodeUnit := 0x3B2
  /** 🔐 as its surrogate pair. */
  const Lock: Text := [0xD83D, 0xDD10]

  const PrefixBeta: Text := [Percent, Percent] + Lock + [Beta, Space]     // "%%🔐β ", version 2
  const PrefixBetaVisible: Text := Lock + [Beta, Space]                   // "🔐β ", version 2
  const PrefixAlpha: Text := [Percent, Percent] + Lock + [Alpha, Space]   // "%%🔐α ", version 1
  const PrefixAlphaVisible: Text := Lock + [Alpha, Space]                 // "🔐α ", version 1
  const PrefixObsolete: Text := [Percent, Percent] + Lock + [Space]       // "%%🔐 ", version 0
  const PrefixObsoleteVisible: Text := Lock + [Space]                     // "🔐 ", version 0

  const Suffix: Text := [Space] + Lock + [Percent, Percent]               // " 🔐%%"
  const SuffixVisible: Text := [Space] + Lock                             // " 🔐"

  const AllPrefixes: seq<Text> :=
    [PrefixBeta, PrefixBetaVisible, PrefixAlpha, PrefixAlphaVisible, PrefixObsolete, PrefixObsoleteVisible]
  /** The generation each entry of `AllPrefixes` announces. */
  const PrefixGenerations: seq<int> := [2, 2, 1, 1, 0, 0]
  const AllSuffixes: seq<Text> := [Suffix, SuffixVisible]

  /** 💡 as its surrogate pair. */
  const HintMarker: Text := [0xD83D, 0xDCA1]

  datatype Decryptable = Decryptable(version: int, hint: Text, base64CipherText: Text)

  ghost predicate HasPrefix(text: Text) {
    exists i :: 0 <= i < |AllPrefixes| && StartsWith(text, AllPrefixes[i])
  }

  ghost predicate HasSuffix(text: Text) {
    exists j :: 0 <= j < |AllSuffixes| && EndsWith(text, AllSuffixes[j])
  }

  /**
   * `parseInPlace`: the first prefix the text starts with and the first
   * suffix it ends with, the generation of that prefix, the text between
   * them, and the hint split off that text.
   */
  function ParseInPlace(text: Text): (r: Option<Decryptable>)
    ensures r.Some? <==> HasPrefix(text) && HasSuffix(text)
    ensures r.Some? ==> 0 <= r.value.version <= 2
  {
    var prefix := Find(AllPrefixes, p => StartsWith(text, p));
    var suffix := Find(AllSuffixes, s => EndsWith(text, s));
    if prefix.None? || suffix.None? then None
    else
      var p, s := prefix.value, suffix.value;
      var version := PrefixVersion(p);
      if version == -1 then None
      else Some(SplitHint(version, Substring(text, |p|, |text| - |s|)))
  }

  /** The generation a matched prefix announces: 2 for β, 1 for α, 0 for the obsolete glyph, -1 for any other text. */
  function PrefixVersion(p: Text): (r: int)
    ensures -1 <= r <= 2
    ensures r != -1 <==> p in AllPrefixes
  {
    if p == PrefixBeta || p == PrefixBetaVisible then 2
    else if p == PrefixAlpha || p == PrefixAlphaVisible then 1
    else if p == PrefixObsolete || p == PrefixObsoleteVisible then 0
    else -1
  }

  /**
   * The content starts with a hint marker and a second marker follows
   * somewhere after it.
   */
  ghost predicate HasClosedHint(content: Text) {
    StartsWith(content, HintMarker) && exists k :: |HintMarker| <= k && OccursAt(content, HintMarker, k)
  }

  /**
   * The hint split of `parseInPlace`: when the content starts with 💡 and the
   * next 💡 after it is found, the text between the two is the hint and the
   * rest is the ciphertext; otherwise the hint is empty and the whole
   * content, a lone leading 💡 included, is the ciphertext.
   */
  function SplitHint(version: int, content: Text): (r: Decryptable)
    ensures r.version == version
    ensures EndsWith(content, r.base64CipherText)
    ensures r.hint != [] ==> StartsWith(content, HintMarker)
  {
    if StartsWith(content, HintMarker) then
      var hintEndIndex := IndexOf(content, HintMarker, |HintMarker|);
      if hintEndIndex > 0 then
        Decryptable(version, Substring(content, |HintMarker|, hintEndIndex),
                    Substring(content, hintEndIndex + |HintMarker|, |content|))
      else Decryptable(version, [], content)
    else Decryptable(version, [], content)
  }

  /** The text between a matched prefix and suffix, which `substring` takes in swapped order when the two overlap. */
  function Between(text: Text, prefixLength: nat, suffixLength: nat): Text
    requires prefixLength <= |text| && suffixLength <= |text|
  {
    if prefixLength + suffixLength <= |text| then text[prefixLength..|text| - suffixLength]
    else text[|text| - suffixLength..prefixLength]
  }

  /** The in-place encoding `encrypt` prints: block-style β prefix, the base64 frame, block-style suffix. */
  function FormatInPlace(base64: Text): (r: Text)
    ensures StartsWith(r, PrefixBeta) && EndsWith(r, Suffix)
    ensures |r| == |PrefixBeta| + |base64| + |Suffix| && r[|PrefixBeta|..|r| - |Suffix|] == base64
  {
    PrefixBeta + base64 + Suffix
  }

  /**
   * No text starts with two different prefixes: the block and visible
   * styles differ in their first unit, and the generations differ in the
   * unit after the lock. The order of `AllPrefixes` therefore never decides
   * a match.
   */
  lemma AtMostOnePrefix(text: Text, i: nat, j: nat)
    requires i < |AllPrefixes| && j < |AllPrefixes|
    requires StartsWith(text, AllPrefixes[i]) && StartsWith(text, AllPrefixes[j])
    ensures i == j
  {
    var a, b := AllPrefixes[i], AllPrefixes[j];
    assert text[0] == a[0] == b[0];
    var offset := if a[0] == Percent then 2 else 0;
    assert text[offset + 2] == a[offset + 2] == b[offset + 2];
  }

  /** No text ends with both suffixes: one ends in `%`, the other in the lock's second unit. */
  lemma AtMostOneSuffix(text: Text, i: nat, j: nat)
    requires i < |AllSuffixes| && j < |AllSuffixes|
    requires EndsWith(text, AllSuffixes[i]) && EndsWith(text, AllSuffixes[j])
    ensures i == j
  {
    var a, b := AllSuffixes[i], AllSuffixes[j];
    assert text[|text| - 1] == a[|a| - 1] == b[|b| - 1];
  }

  /**
   * Once a prefix and a suffix match, the result carries the prefix's
   * generation and the hint split of the text between the two markers.
   */
  lemma ParseInPlaceMatches(text: Text, i: nat, j: nat)
    requires i < |AllPrefixes| && j < |AllSuffixes|
    requires StartsWith(text, AllPrefixes[i]) && EndsWith(text, AllSuffixes[j])
    ensures ParseInPlace(text)
         == Some(SplitHint(PrefixGenerations[i], Between(text, |AllPrefixes[i]|, |AllSuffixes[j]|)))
  {
    FindsMatchedPrefix(text, i);
    FindsMatchedSuffix(text, j);
    PrefixVersionOfEach(i);
  }

  lemma FindsMatchedPrefix(text: Text, i: nat)
    requires i < |AllPrefixes| && StartsWith(text, AllPrefixes[i])
    ensures Find(AllPrefixes, p => StartsWith(text, p)) == Some(AllPrefixes[i])
  {
    var prefix := Find(AllPrefixes, p => StartsWith(text, p));
    var i' :| 0 <= i' < |AllPrefixes| && AllPrefixes[i'] == prefix.value && StartsWith(text, AllPrefixes[i']);
    AtMostOnePrefix(text, i, i');
  }

  lemma FindsMatchedSuffix(text: Text, j: nat)
    requires j < |AllSuffixes| && EndsWith(text, AllSuffixes[j])
    ensures Find(AllSuffixes, s => EndsWith(text, s)) == Some(AllSuffixes[j])
  {
    var suffix := Find(AllSuffixes, s => EndsWith(text, s));
    var j' :| 0 <= j' < |AllSuffixes| && AllSuffixes[j'] == suffix.value && EndsWith(text, AllSuffixes[j']);
    AtMostOneSuffix(text, j, j');
  }

  /** Each listed prefix announces the generation `PrefixGenerations` gives it; -1 never comes out. */
  lemma PrefixVersionOfEach(i: nat)
    requires i < |AllPrefixes|
    ensures PrefixVersion(AllPrefixes[i]) == PrefixGenerations[i]
  {
    // prefixes of equal length differ in the unit after the lock
    assert PrefixAlpha[4] != PrefixBeta[4];
    assert PrefixAlphaVisible[2] != PrefixBetaVisible[2];
  }

  /**
   * What the hint split promises: with a closed hint the content is
   * 💡 hint 💡 ciphertext and the hint holds no 💡 (it ends at the first
   * closing marker); without one the hint is empty and the ciphertext is
   * the whole content.
   */
  lemma SplitHintSpec(version: int, content: Text)
    ensures SplitHint(version, content).version == version
    ensures HasClosedHint(content) ==>
      var d := SplitHint(version, content);
      content == HintMarker + d.hint + HintMarker + d.base64CipherText && !Contains(d.hint, HintMarker)
    ensures !HasClosedHint(content) ==>
      SplitHint(version, content) == Decryptable(version, [], content)
  {
    var m := |HintMarker|;
    if StartsWith(content, HintMarker) {
      var end := IndexOf(content, HintMarker, m);
      if end > 0 {
        var d := SplitHint(version, content);
        assert d.hint == content[m..end];
        assert d.base64CipherText == content[end + m..];
        assert content == content[..m] + content[m..end] + content[end..end + m] + content[end + m..];
        if Contains(d.hint, HintMarker) {
          var k :| OccursAt(d.hint, HintMarker, k);
          assert content[m + k..m + k + m] == d.hint[k..k + m];
          assert OccursAt(content, HintMarker, m + k);
          assert false;
        }
      }
    }
  }

  /**
   * A content laid out as 💡 hint 💡 ciphertext, with no 💡 inside the hint,
   * splits back into exactly that hint and ciphertext.
   */
  lemma SplitHintOfClosed(version: int, hint: Text, cipherText: Text)
    requires !Contains(hint, HintMarker)
    ensures SplitHint(version, HintMarker + hint + HintMarker + cipherText) == Decryptable(version, hint, cipherText)
  {
    var m := |HintMarker|;
    var content := HintMarker + hint + HintMarker + cipherText;
    var close := m + |hint|;
    assert OccursAt(content, HintMarker, close);
    forall k | m <= k < close
      ensures !OccursAt(content, HintMarker, k)
    {
      if k + m <= close {
        assert content[k..k + m] == hint[k - m..k];
        assert !OccursAt(hint, HintMarker, k - m);
      } else {
        // The candidate straddles the closing marker: its second unit is the
        // marker's first unit, which differs from the marker's second unit.
        assert k + 1 == close && content[close] == HintMarker[0];
        assert HintMarker[0] != HintMarker[1];
        if k + m <= |content| {
          assert content[k..k + m][1] == content[k + 1];
        }
      }
    }
    assert IndexOf(content, HintMarker, m) == close;
    assert content[m..close] == hint;
    assert content[close + m..] == cipherText;
  }

  /**
   * A leading 💡 with no 💡 anywhere after it is not a hint: the hint is
   * empty and the marker stays in the ciphertext.
   */
  lemma SplitHintOfUnclosed(version: int, rest: Text)
    requires !Contains(rest, HintMarker)
    ensures SplitHint(version, HintMarker + rest) == Decryptable(version, [], HintMarker + rest)
  {
    var content := HintMarker + rest;
    forall k | |HintMarker| <= k
      ensures !OccursAt(content, HintMarker, k)
    {
      if k + |HintMarker| <= |content| {
        assert content[k..k + |HintMarker|] == rest[k - |HintMarker|..k];
        assert !OccursAt(rest, HintMarker, k - |HintMarker|);
      }
    }
    SplitHintSpec(version, content);
  }

  /** ASCII text never holds the two-unit 💡, whose units both lie above 0xD7FF. */
  lemma AsciiHasNoHintMarker(t: Text)
    requires forall i :: 0 <= i < |t| ==> t[i] < 128
    ensures !Contains(t, HintMarker)
  {
    forall k
      ensures !OccursAt(t, HintMarker, k)
    {
      if 0 <= k && k + |HintMarker| <= |t| {
        assert t[k..k + |HintMarker|][0] == t[k];
      }
    }
  }

  /** Base64 text is ASCII, so it holds no 💡 and in particular does not open with one. */
  lemma Base64HasNoHintMarker(base64: Text)
    requires IsBase64(base64)
    ensures !Contains(base64, HintMarker)
    ensures !StartsWith(base64, HintMarker)
  {
    forall i | 0 <= i < |base64|
      ensures base64[i] < 128
    {
      assert IsBase64Unit(base64[i]);
    }
    AsciiHasNoHintMarker(base64);
    if StartsWith(base64, HintMarker) {
      assert OccursAt(base64, HintMarker, 0);
    }
  }

  /** Text in block-style β markers parses to generation 2 and the hint split of what lies between them. */
  lemma ParseBlockBeta(content: Text)
    ensures ParseInPlace(PrefixBeta + content + Suffix) == Some(SplitHint(2, content))
  {
    ParseMarked(0, 0, content);
  }

  /**
   * Any prefix, any content, any suffix: the parser reports the prefix's
   * generation and hands exactly the content to the hint splitter.
   */
  lemma ParseMarked(i: nat, j: nat, content: Text)
    requires i < |AllPrefixes| && j < |AllSuffixes|
    ensures ParseInPlace(AllPrefixes[i] + content + AllSuffixes[j])
         == Some(SplitHint(PrefixGenerations[i], content))
  {
    var text := AllPrefixes[i] + content + AllSuffixes[j];
    assert text[..|AllPrefixes[i]|] == AllPrefixes[i];
    assert text[|text| - |AllSuffixes[j]|..] == AllSuffixes[j];
    ParseInPlaceMatches(text, i, j);
    assert Between(text, |AllPrefixes[i]|, |AllSuffixes[j]|) == content;
  }

  /**
   * A base64 frame wrapped in any prefix and suffix parses back to the
   * prefix's generation, an empty hint and the frame itself.
   */
  lemma ParseMarkedFrame(i: nat, j: nat, base64: Text)
    requires i < |AllPrefixes| && j < |AllSuffixes|
    requires !StartsWith(base64, HintMarker)
    ensures ParseInPlace(AllPrefixes[i] + base64 + AllSuffixes[j])
         == Some(Decryptable(PrefixGenerations[i], [], base64))
  {
    ParseMarked(i, j, base64);
    SplitHintSpec(PrefixGenerations[i], base64);
  }

  /**
   * Parsing what `encrypt` prints gives back generation 2, an empty hint
   * and the frame, for every frame that does not itself open with 💡.
   */
  lemma ParseInPlaceInvertsFormat(base64: Text)
    requires !StartsWith(base64, HintMarker)
    ensures ParseInPlace(FormatInPlace(base64)) == Some(Decryptable(2, [], base64))
  {
    ParseBlockBeta(base64);
    SplitHintSpec(2, base64);
  }

  /** `%%🔐β 💡note💡QUJD 🔐%%` carries the hint "note" in front of the frame "QUJD". */
  lemma HintExample()
    ensures ParseInPlace(PrefixBeta + HintMarker + Ascii("note") + HintMarker + Ascii("QUJD") + Suffix)
         == Some(Decryptable(2, Ascii("note"), Ascii("QUJD")))
  {
    var content := HintMarker + Ascii("note") + HintMarker + Ascii("QUJD");
    assert PrefixBeta + HintMarker + Ascii("note") + HintMarker + Ascii("QUJD") + Suffix
        == PrefixBeta + content + Suffix;
    ParseBlockBeta(content);
    AsciiHasNoHintMarker(Ascii("note"));
    SplitHintOfClosed(2, Ascii("note"), Ascii("QUJD"));
  }

  /** `%%🔐β 💡onlyone 🔐%%`: an unclosed hint marker stays in the ciphertext and the hint is empty. */
  lemma UnterminatedHintExample()
    ensures ParseInPlace(PrefixBeta + HintMarker + Ascii("onlyone") + Suffix)
         == Some(Decryptable(2, [], HintMarker + Ascii("onlyone")))
  {
    var rest := Ascii("onlyone");
    assert PrefixBeta + HintMarker + rest + Suffix == PrefixBeta + (HintMarker + rest) + Suffix;
    ParseBlockBeta(HintMarker + rest);
    AsciiHasNoHintMarker(rest);
    SplitHintOfUnclosed(2, rest);
  }

  /** `💡💡X`: two adjacent markers give an empty hint and the ciphertext "X". */
  lemma EmptyHintExample()
    ensures ParseInPlace(PrefixBeta + HintMarker + HintMarker + Ascii("X") + Suffix)
         == Some(Decryptable(2, [], Ascii("X")))
  {
    var content := HintMarker + [] + HintMarker + Ascii("X");
    assert PrefixBeta + HintMarker + HintMarker + Ascii("X") + Suffix == PrefixBeta + content + Suffix;
    ParseBlockBeta(content);
    assert !Contains([], HintMarker);
    SplitHintOfClosed(2, [], Ascii("X"));
  }

  /**
   * `🔐 🔐` starts with the visible obsolete prefix and ends with the visible
   * suffix; the two overlap, `substring` swaps its bounds, and the content is
   * the single space between the glyphs.
   */
  lemma OverlapExample()
    ensures ParseInPlace(Lock + [Space] + Lock) == Some(Decryptable(0, [], [Space]))
  {
    var text := Lock + [Space] + Lock;
    assert text[..|PrefixObsoleteVisible|] == PrefixObsoleteVisible;
    assert text[|text| - |SuffixVisible|..] == SuffixVisible;
    ParseInPlaceMatches(text, 5, 1);
    assert Between(text, |PrefixObsoleteVisible|, |SuffixVisible|) == [Space];
    SplitHintSpec(0, [Space]);
  }
}
