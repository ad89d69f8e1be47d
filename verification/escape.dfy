/**
 * `escapeHtml` of the page script: five chained global replacements that turn the
 * characters significant to HTML markup into the character references of section
 * 13.1.4 of the WHATWG HTML Living Standard, and a strict decoder that inverts it.
 */
module Escape {
  import opened Wrappers
  import opened Text

  /** The characters `escapeHtml` replaces by a character reference. */
  const Special: set<char> := {'&', '<', '>', '"', '\''}

  /** No character that can open or close a tag, or end a quoted attribute value. */
  predicate MarkupFree(s: string) {
    '<' !in s && '>' !in s && '"' !in s && '\'' !in s
  }

  /** The five `.replace(/x/g, ref)` steps of the chain, one per special character. */
  function ReplaceAmp(s: string): string { ReplaceAll(s, '&', "&amp;") }
  function ReplaceLt(s: string): string { ReplaceAll(s, '<', "&lt;") }
  function ReplaceGt(s: string): string { ReplaceAll(s, '>', "&gt;") }
  function ReplaceQuot(s: string): string { ReplaceAll(s, '"', "&quot;") }
  function ReplaceApos(s: string): string { ReplaceAll(s, '\'', "&#039;") }

  /**
   * The chain as the page script writes it: `&` first, then `<`, `>`, `"` and `'`.
   * Nothing that can start or end markup survives, and the text never shrinks.
   */
  function EscapeHtml(s: string): (r: string)
    ensures MarkupFree(r)
    ensures |r| >= |s|
  {
    ReplaceApos(ReplaceQuot(ReplaceGt(ReplaceLt(ReplaceAmp(s)))))
  }

  /** The reference one character becomes, or the character itself. */
  function EncodeChar(c: char): (r: string)
    ensures 0 < |r|
    ensures c !in Special ==> r == [c]
  {
    match c
    case '&' => "&amp;"
    case '<' => "&lt;"
    case '>' => "&gt;"
    case '"' => "&quot;"
    case '\'' => "&#039;"
    case _ => [c]
  }

  /** Reference definition: encode each character on its own and concatenate. */
  function Encode(s: string): string {
    if s == [] then [] else EncodeChar(s[0]) + Encode(s[1..])
  }

  lemma EscapeHtmlConcat(a: string, b: string)
    ensures EscapeHtml(a + b) == EscapeHtml(a) + EscapeHtml(b)
  {
    var a1, b1 := ReplaceAmp(a), ReplaceAmp(b);
    ReplaceAllConcat(a, b, '&', "&amp;");
    var a2, b2 := ReplaceLt(a1), ReplaceLt(b1);
    ReplaceAllConcat(a1, b1, '<', "&lt;");
    var a3, b3 := ReplaceGt(a2), ReplaceGt(b2);
    ReplaceAllConcat(a2, b2, '>', "&gt;");
    var a4, b4 := ReplaceQuot(a3), ReplaceQuot(b3);
    ReplaceAllConcat(a3, b3, '"', "&quot;");
    ReplaceAllConcat(a4, b4, '\'', "&#039;");
  }

  /** Text free of markup characters passes the last four steps unchanged. */
  lemma LaterStepsFix(x: string)
    requires MarkupFree(x)
    ensures ReplaceLt(x) == x && ReplaceGt(x) == x && ReplaceQuot(x) == x && ReplaceApos(x) == x
  {
    ReplaceAllAbsent(x, '<', "&lt;");
    ReplaceAllAbsent(x, '>', "&gt;");
    ReplaceAllAbsent(x, '"', "&quot;");
    ReplaceAllAbsent(x, '\'', "&#039;");
  }

  /**
   * On one character the chain yields exactly that character's reference: because `&`
   * is replaced first, the `&` of a reference made by a later step is never re-escaped,
   * and no reference holds a character that a later step replaces.
   */
  lemma EscapeHtmlChar(c: char)
    ensures EscapeHtml([c]) == EncodeChar(c)
  {
    var r := EncodeChar(c);
    ReplaceAllSingle(c, '&', "&amp;");
    ReplaceAllSingle(c, '<', "&lt;");
    ReplaceAllSingle(c, '>', "&gt;");
    ReplaceAllSingle(c, '"', "&quot;");
    ReplaceAllSingle(c, '\'', "&#039;");
    if c == '&' {
      assert ReplaceAmp([c]) == r && MarkupFree(r);
      LaterStepsFix(r);
    } else if c == '<' {
      assert ReplaceLt(ReplaceAmp([c])) == r && MarkupFree(r);
      LaterStepsFix(r);
    } else if c == '>' {
      assert ReplaceGt(ReplaceLt(ReplaceAmp([c]))) == r && MarkupFree(r);
      LaterStepsFix(r);
    } else if c == '"' {
      assert ReplaceQuot(ReplaceGt(ReplaceLt(ReplaceAmp([c])))) == r && MarkupFree(r);
      LaterStepsFix(r);
    }
  }

  /** The five-step chain equals the per-character encoding. */
  lemma {:induction false} EscapeHtmlIsPerCharEncoding(s: string)
    ensures EscapeHtml(s) == Encode(s)
  {
    if s != [] {
      assert s == [s[0]] + s[1..];
      EscapeHtmlConcat([s[0]], s[1..]);
      EscapeHtmlChar(s[0]);
      EscapeHtmlIsPerCharEncoding(s[1..]);
    }
  }

  /** The special character whose reference `t` begins with, if any. */
  function ReferenceAt(t: string): (r: Option<char>)
    ensures r.Some? ==> r.value in Special && EncodeChar(r.value) <= t
    ensures r.None? ==> forall c :: c in Special ==> !(EncodeChar(c) <= t)
  {
    if "&amp;" <= t then Some('&')
    else if "&lt;" <= t then Some('<')
    else if "&gt;" <= t then Some('>')
    else if "&quot;" <= t then Some('"')
    else if "&#039;" <= t then Some('\'')
    else None
  }

  /** No reference is a prefix of another: they differ in their second character. */
  lemma ReferencesPrefixFree(c: char, d: char, t: string)
    requires c in Special && d in Special
    requires EncodeChar(c) <= t && EncodeChar(d) <= t
    ensures c == d
  {
    assert EncodeChar(c)[1] == t[1] == EncodeChar(d)[1];
  }

  /**
   * Strict decoder: a special character may appear only as the `&` opening one of the
   * five references, which stands for the character it encodes; any other character
   * stands for itself. `None` when the text could not have come from `EscapeHtml`.
   */
  function Decode(t: string): (r: Option<string>)
    ensures r.Some? ==> |r.value| <= |t|
    decreases |t|
  {
    if t == [] then Some([])
    else if t[0] in Special then
      match ReferenceAt(t)
      case None => None
      case Some(c) =>
        match Decode(t[|EncodeChar(c)|..])
        case None => None
        case Some(rest) => Some([c] + rest)
    else
      match Decode(t[1..])
      case None => None
      case Some(rest) => Some([t[0]] + rest)
  }

  lemma {:induction false} EncodeSplit(c: char, s: string)
    ensures Encode([c] + s) == EncodeChar(c) + Encode(s)
  {
    assert ([c] + s)[0] == c;
    assert ([c] + s)[1..] == s;
  }

  /** Decoding reads one character's encoding off the front and carries on after it. */
  lemma DecodeCons(c: char, u: string)
    ensures Decode(EncodeChar(c) + u) ==
      match Decode(u)
      case None => None
      case Some(rest) => Some([c] + rest)
  {
    var t := EncodeChar(c) + u;
    assert t[|EncodeChar(c)|..] == u;
    if c in Special {
      assert t[0] in Special;
      var ref := ReferenceAt(t);
      assert ref.Some? by {
        assert EncodeChar(c) <= t;
      }
      ReferencesPrefixFree(ref.value, c, t);
    } else {
      assert t[0] == c;
    }
  }

  lemma {:induction false} DecodeEncode(s: string)
    ensures Decode(Encode(s)) == Some(s)
  {
    if s != [] {
      var c := s[0];
      assert Encode(s) == EncodeChar(c) + Encode(s[1..]);
      DecodeCons(c, Encode(s[1..]));
      DecodeEncode(s[1..]);
      assert s == [c] + s[1..];
    }
  }

  lemma {:induction false} DecodeSound(t: string)
    requires Decode(t).Some?
    ensures Encode(Decode(t).value) == t
    decreases |t|
  {
    if t != [] {
      if t[0] in Special {
        var c := ReferenceAt(t).value;
        var k := |EncodeChar(c)|;
        DecodeSound(t[k..]);
        EncodeSplit(c, Decode(t[k..]).value);
        assert EncodeChar(c) == t[..k];
        assert t == t[..k] + t[k..];
      } else {
        DecodeSound(t[1..]);
        EncodeSplit(t[0], Decode(t[1..]).value);
        assert t == [t[0]] + t[1..];
      }
    }
  }

  /** `Decode` inverts `escapeHtml`, and accepts nothing else. */
  lemma DecodeIffEscaped(s: string, t: string)
    ensures Decode(t) == Some(s) <==> EscapeHtml(s) == t
  {
    EscapeHtmlIsPerCharEncoding(s);
    DecodeEncode(s);
    if Decode(t) == Some(s) {
      DecodeSound(t);
    }
  }

  /** Distinct texts escape to distinct markup. */
  lemma EscapeHtmlInjective(s1: string, s2: string)
    requires EscapeHtml(s1) == EscapeHtml(s2)
    ensures s1 == s2
  {
    DecodeIffEscaped(s1, EscapeHtml(s1));
    DecodeIffEscaped(s2, EscapeHtml(s2));
  }

  /** Inside a reference, `&` occurs only as its first character. */
  lemma ReferenceAmpersand(c: char)
    requires c in Special
    ensures forall i :: 0 < i < |EncodeChar(c)| ==> EncodeChar(c)[i] != '&'
  {
  }

  lemma {:induction false} DecodableAmpersands(t: string)
    requires Decode(t).Some?
    ensures forall i :: 0 <= i < |t| && t[i] == '&' ==> ReferenceAt(t[i..]).Some?
    decreases |t|
  {
    if t != [] {
      if t[0] in Special {
        var c := ReferenceAt(t).value;
        var k := |EncodeChar(c)|;
        assert t[..k] == EncodeChar(c);
        ReferenceAmpersand(c);
        DecodableAmpersands(t[k..]);
        forall i | k <= i < |t| && t[i] == '&'
          ensures ReferenceAt(t[i..]).Some?
        {
          assert t[i..] == t[k..][i - k..];
        }
        forall i | 0 < i < k
          ensures t[i] != '&'
        {
          assert t[i] == t[..k][i];
        }
      } else {
        DecodableAmpersands(t[1..]);
        forall i | 1 <= i < |t| && t[i] == '&'
          ensures ReferenceAt(t[i..]).Some?
        {
          assert t[i..] == t[1..][i - 1..];
        }
      }
    }
  }

  /** Every `&` in escaped text begins one of the five references. */
  lemma EscapeHtmlAmpersands(s: string)
    ensures forall i :: 0 <= i < |EscapeHtml(s)| && EscapeHtml(s)[i] == '&' ==>
      ReferenceAt(EscapeHtml(s)[i..]).Some?
  {
    DecodeIffEscaped(s, EscapeHtml(s));
    DecodableAmpersands(EscapeHtml(s));
  }

  lemma {:induction false} EncodeLength(s: string)
    ensures |Encode(s)| >= |s|
    ensures |Encode(s)| == |s| <==> forall i :: 0 <= i < |s| ==> s[i] !in Special
    ensures (forall i :: 0 <= i < |s| ==> s[i] !in Special) ==> Encode(s) == s
  {
    if s != [] {
      EncodeLength(s[1..]);
      assert forall i :: 1 <= i < |s| ==> s[i] == s[1..][i - 1];
    }
  }

  /** Text is left unchanged exactly when it holds none of the five special characters. */
  lemma EscapeHtmlFixesPlainText(s: string)
    ensures EscapeHtml(s) == s <==> forall i :: 0 <= i < |s| ==> s[i] !in Special
  {
    EscapeHtmlIsPerCharEncoding(s);
    EncodeLength(s);
  }
}
