/**
 * The markup of a project description in the projects grid:
 * the escaped text with every newline replaced by a `<br>` tag.
 */
module Description {
  import opened Wrappers
  import opened Text
  import opened Escape

  /** The line-break tag that stands for each newline of a description. */
  const Break: string := "<br>"

  /**
   * The escaped description with every newline turned into a line-break tag. No
   * newline and no quote survives.
   */
  function RenderDescription(d: string): (r: string)
    ensures '\n' !in r
    ensures '"' !in r && '\'' !in r
  {
    ReplaceAll(EscapeHtml(d), '\n', Break)
  }

  /** Every `<` of `s` opens a line-break tag, and quotes are absent. */
  predicate OnlyBreakTags(s: string) {
    && '"' !in s && '\'' !in s
    && forall i :: 0 <= i < |s| && s[i] == '<' ==> Break <= s[i..]
  }

  /** The inverse of the newline substitution: each line-break tag becomes a newline. */
  function RestoreNewlines(t: string): string
    decreases |t|
  {
    if t == [] then []
    else if Break <= t then "\n" + RestoreNewlines(t[|Break|..])
    else [t[0]] + RestoreNewlines(t[1..])
  }

  /** One step of the newline substitution: the head character's piece, then the rest. */
  lemma ReplaceHead(x: string)
    requires x != []
    ensures ReplaceAll(x, '\n', Break) == Piece(x[0]) + ReplaceAll(x[1..], '\n', Break)
  {
  }

  /** What one character of escaped text becomes under the newline substitution. */
  function Piece(c: char): string {
    if c == '\n' then Break else [c]
  }

  lemma {:induction false} BreakCount(x: string)
    requires '<' !in x
    ensures Count(ReplaceAll(x, '\n', Break), '<') == Count(x, '\n')
  {
    if x != [] {
      ReplaceHead(x);
      BreakCount(x[1..]);
      CountConcat(Piece(x[0]), ReplaceAll(x[1..], '\n', Break), '<');
      assert Count(x, '\n') == (if x[0] == '\n' then 1 else 0) + Count(x[1..], '\n');
      if x[0] == '\n' {
        assert Count(Break, '<') == 1;
      } else {
        assert Count([x[0]], '<') == 0;
      }
    }
  }

  lemma {:induction false} BreakTagsOnly(x: string)
    requires '<' !in x
    ensures forall i :: 0 <= i < |ReplaceAll(x, '\n', Break)| && ReplaceAll(x, '\n', Break)[i] == '<' ==>
      Break <= ReplaceAll(x, '\n', Break)[i..]
  {
    if x != [] {
      var head, rest := Piece(x[0]), ReplaceAll(x[1..], '\n', Break);
      var r := head + rest;
      ReplaceHead(x);
      BreakTagsOnly(x[1..]);
      var k := |head|;
      forall i | 0 <= i < |r| && r[i] == '<'
        ensures Break <= r[i..]
      {
        if i >= k {
          assert r[i..] == rest[i - k..];
        } else {
          assert head[i] == '<';
          assert x[0] == '\n' && i == 0;
        }
      }
    }
  }

  lemma {:induction false} BreakRestore(x: string)
    requires '<' !in x
    ensures RestoreNewlines(ReplaceAll(x, '\n', Break)) == x
  {
    if x != [] {
      var head, rest := Piece(x[0]), ReplaceAll(x[1..], '\n', Break);
      var r := head + rest;
      ReplaceHead(x);
      BreakRestore(x[1..]);
      assert r[|head|..] == rest;
      if x[0] == '\n' {
        assert Break <= r;
      } else {
        assert r[0] == x[0] && x[0] != '<';
        assert !(Break <= r);
      }
      assert x == [x[0]] + x[1..];
    }
  }

  lemma NewlinesOfChar(c: char)
    ensures Count(EncodeChar(c), '\n') == if c == '\n' then 1 else 0
  {
    if c in Special {
      assert '\n' !in EncodeChar(c);
    } else {
      assert Count([c], '\n') == if c == '\n' then 1 else 0;
    }
  }

  lemma {:induction false} EncodeKeepsNewlines(s: string)
    ensures Count(Encode(s), '\n') == Count(s, '\n')
  {
    if s != [] {
      EncodeKeepsNewlines(s[1..]);
      CountConcat(EncodeChar(s[0]), Encode(s[1..]), '\n');
      NewlinesOfChar(s[0]);
    }
  }

  /**
   * The rendered description holds no markup but line-break tags: every `<` opens one,
   * there is one per newline of the description, and none of them is lost.
   */
  lemma RenderDescriptionBreaks(d: string)
    ensures OnlyBreakTags(RenderDescription(d))
    ensures Count(RenderDescription(d), '<') == Count(d, '\n')
  {
    BreakCount(EscapeHtml(d));
    BreakTagsOnly(EscapeHtml(d));
    EscapeHtmlIsPerCharEncoding(d);
    EncodeKeepsNewlines(d);
  }

  /** Restoring the newlines and decoding the references gives back the description. */
  lemma RenderDescriptionRoundTrip(d: string)
    ensures Decode(RestoreNewlines(RenderDescription(d))) == Some(d)
  {
    BreakRestore(EscapeHtml(d));
    DecodeIffEscaped(d, EscapeHtml(d));
  }
}
