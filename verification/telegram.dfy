/** Rendering a live event as a Telegram message: escaping, clamping, and the length ceiling. Texts are
    sequences of UTF-16 code units, as their lengths and cuts are. */
module Telegram {
  import opened Options
  import Lines

  /** A UTF-16 code unit. */
  type Unit = u: int | 0 <= u < 0x1_0000

  type Text = seq<Unit>

  const AMP: Unit := 38
  const LT: Unit := 60
  const GT: Unit := 62
  const QUOT: Unit := 34
  const SEMICOLON: Unit := 59
  const NEWLINE: Unit := 10

  /** `&amp;`, `&lt;`, `&gt;` and `&quot;` */
  const AMP_ENTITY: Text := [38, 97, 109, 112, 59]
  const LT_ENTITY: Text := [38, 108, 116, 59]
  const GT_ENTITY: Text := [38, 103, 116, 59]
  const QUOT_ENTITY: Text := [38, 113, 117, 111, 116, 59]

  // ----- escaping

  function Replace(s: Text, unit: Unit, replacement: Text): Text {
    if s == [] then [] else (if s[0] == unit then replacement else [s[0]]) + Replace(s[1..], unit, replacement)
  }

  /** Four replacements over the whole text, the ampersand first. */
  function EscapeHtml(s: Text): Text {
    Replace(Replace(Replace(Replace(s, AMP, AMP_ENTITY), LT, LT_ENTITY), GT, GT_ENTITY), QUOT, QUOT_ENTITY)
  }

  function Entity(u: Unit): Text {
    if u == AMP then AMP_ENTITY else if u == LT then LT_ENTITY else if u == GT then GT_ENTITY
    else if u == QUOT then QUOT_ENTITY else [u]
  }

  /** Each unit by itself. */
  function Escape(s: Text): Text {
    if s == [] then [] else Entity(s[0]) + Escape(s[1..])
  }

  lemma {:induction false} ReplaceSplits(a: Text, b: Text, unit: Unit, replacement: Text)
    ensures Replace(a + b, unit, replacement) == Replace(a, unit, replacement) + Replace(b, unit, replacement)
  {
    if a == [] {
      assert a + b == b;
    } else {
      assert (a + b)[1..] == a[1..] + b;
      ReplaceSplits(a[1..], b, unit, replacement);
    }
  }

  lemma {:induction false} ReplaceNone(a: Text, unit: Unit, replacement: Text)
    requires unit !in a
    ensures Replace(a, unit, replacement) == a
  {
    if a != [] {
      ReplaceNone(a[1..], unit, replacement);
    }
  }

  lemma ReplaceOne(u: Unit, unit: Unit, replacement: Text)
    ensures Replace([u], unit, replacement) == if u == unit then replacement else [u]
  {
    assert Replace([u][1..], unit, replacement) == [];
  }

  lemma EscapeOne(u: Unit)
    ensures EscapeHtml([u]) == Entity(u)
  {
    hide Replace;
    ReplaceOne(u, AMP, AMP_ENTITY);
    if u == AMP {
      ReplaceNone(AMP_ENTITY, LT, LT_ENTITY);
      ReplaceNone(AMP_ENTITY, GT, GT_ENTITY);
      ReplaceNone(AMP_ENTITY, QUOT, QUOT_ENTITY);
    } else {
      ReplaceOne(u, LT, LT_ENTITY);
      if u == LT {
        ReplaceNone(LT_ENTITY, GT, GT_ENTITY);
        ReplaceNone(LT_ENTITY, QUOT, QUOT_ENTITY);
      } else {
        ReplaceOne(u, GT, GT_ENTITY);
        if u == GT {
          ReplaceNone(GT_ENTITY, QUOT, QUOT_ENTITY);
        } else {
          ReplaceOne(u, QUOT, QUOT_ENTITY);
        }
      }
    }
  }

  lemma EscapeHtmlSplits(a: Text, b: Text)
    ensures EscapeHtml(a + b) == EscapeHtml(a) + EscapeHtml(b)
  {
    hide Replace;
    var a1, b1 := Replace(a, AMP, AMP_ENTITY), Replace(b, AMP, AMP_ENTITY);
    var a2, b2 := Replace(a1, LT, LT_ENTITY), Replace(b1, LT, LT_ENTITY);
    var a3, b3 := Replace(a2, GT, GT_ENTITY), Replace(b2, GT, GT_ENTITY);
    ReplaceSplits(a, b, AMP, AMP_ENTITY);
    ReplaceSplits(a1, b1, LT, LT_ENTITY);
    ReplaceSplits(a2, b2, GT, GT_ENTITY);
    ReplaceSplits(a3, b3, QUOT, QUOT_ENTITY);
  }

  /** The four passes escape each unit once: no pass touches what an earlier one wrote. */
  lemma {:induction false} EscapeIsPerUnit(s: Text)
    ensures EscapeHtml(s) == Escape(s)
  {
    hide Entity;
    if s == [] {
      NothingToEscape();
    } else {
      EscapeIsPerUnit(s[1..]);
      EscapeHtmlSplits([s[0]], s[1..]);
      EscapeOne(s[0]);
      assert [s[0]] + s[1..] == s;
    }
  }

  lemma NothingToEscape()
    ensures EscapeHtml([]) == []
  {
  }

  lemma {:induction false} EscapeSplits(a: Text, b: Text)
    ensures Escape(a + b) == Escape(a) + Escape(b)
  {
    if a == [] {
      assert a + b == b;
    } else {
      assert (a + b)[1..] == a[1..] + b;
      EscapeSplits(a[1..], b);
    }
  }

  // ----- clamping

  predicate IsLetter(u: Unit) { 65 <= u <= 90 || 97 <= u <= 122 }

  /** Letters at the end of the text. */
  function TrailingLetters(t: Text): (n: nat)
    ensures n <= |t|
  {
    if t == [] || !IsLetter(t[|t| - 1]) then 0 else TrailingLetters(t[..|t| - 1]) + 1
  }

  /** An ampersand and at most five letters end the text. */
  predicate EndsPartial(t: Text) {
    var n := TrailingLetters(t);
    n <= 5 && n < |t| && t[|t| - n - 1] == AMP
  }

  function ClampHtml(text: Text, limit: nat): Text {
    if |text| <= limit then text
    else
      var cut := text[..limit];
      if EndsPartial(cut) then cut[..limit - TrailingLetters(cut) - 1] else cut
  }

  /** How many leading units have an escape of at most `limit`. */
  function Fit(s: Text, limit: nat): (p: nat)
    ensures p <= |s|
  {
    if s == [] || |Entity(s[0])| > limit then 0 else 1 + Fit(s[1..], limit - |Entity(s[0])|)
  }

  /** It is the longest such prefix. */
  lemma {:induction false} FitIsLongest(s: Text, limit: nat, p: nat)
    requires p <= |s|
    ensures |Escape(s[..p])| <= limit <==> p <= Fit(s, limit)
  {
    if p > 0 {
      assert s[..p][1..] == s[1..][..p - 1];
      if |Entity(s[0])| <= limit {
        FitIsLongest(s[1..], limit - |Entity(s[0])|, p - 1);
      }
    }
  }

  lemma EntityEnds(u: Unit)
    ensures |Entity(u)| > 0
    ensures Entity(u) == [u] ==> u != AMP
    ensures Entity(u) != [u] ==> Entity(u)[|Entity(u)| - 1] == SEMICOLON
  {
  }

  lemma PartialNeedsLetterOrAmp(t: Text)
    requires t != [] && !IsLetter(t[|t| - 1]) && t[|t| - 1] != AMP
    ensures !EndsPartial(t)
  {
  }

  lemma LetterKeepsPartial(t: Text)
    requires t != [] && IsLetter(t[|t| - 1]) && EndsPartial(t)
    ensures EndsPartial(t[..|t| - 1])
  {
  }

  /** An escaped text never ends in a partial entity. */
  lemma {:induction false} EscapeEndsWhole(s: Text)
    ensures !EndsPartial(Escape(s))
  {
    hide Entity, EndsPartial, Escape;
    if s == [] {
      NothingIsWhole();
    } else {
      var front, last := s[..|s| - 1], s[|s| - 1];
      assert s[..|s| - 1 + 1] == s;
      NextEntity(s, |s| - 1);
      EntityEnds(last);
      var t := Escape(s);
      assert t[|t| - 1] == Entity(last)[|Entity(last)| - 1];
      if Entity(last) == [last] && IsLetter(last) {
        EscapeEndsWhole(front);
        assert t[..|t| - 1] == Escape(front);
        if EndsPartial(t) {
          LetterKeepsPartial(t);
        }
      } else {
        PartialNeedsLetterOrAmp(t);
      }
    }
  }

  lemma NothingIsWhole()
    ensures !EndsPartial(Escape([]))
  {
  }

  /** A proper, non-empty part of an entity at the end is partial, and all of it is dropped. */
  lemma CutEntityIsPartial(before: Text, u: Unit, r: nat)
    requires 0 < r < |Entity(u)|
    ensures EndsPartial(before + Entity(u)[..r]) && TrailingLetters(before + Entity(u)[..r]) == r - 1
  {
    CutEntityLetters(before, u, r);
    var cut := before + Entity(u)[..r];
    assert cut[|before|] == AMP;
  }

  lemma {:induction false} CutEntityLetters(before: Text, u: Unit, r: nat)
    requires 0 < r < |Entity(u)|
    ensures TrailingLetters(before + Entity(u)[..r]) == r - 1
  {
    var cut := before + Entity(u)[..r];
    assert cut[|cut| - 1] == Entity(u)[r - 1];
    if r > 1 {
      CutEntityLetters(before, u, r - 1);
      assert cut[..|cut| - 1] == before + Entity(u)[..r - 1];
    }
  }

  /** Clamping an escaped text gives the escape of the longest prefix that fits: no partial entity is
      left and no whole one is lost. */
  lemma ClampCommutesWithEscape(s: Text, limit: nat)
    ensures ClampHtml(EscapeHtml(s), limit) == EscapeHtml(s[..Fit(s, limit)])
  {
    hide Entity, EndsPartial, TrailingLetters, Fit, EscapeHtml;
    var p := Fit(s, limit);
    EscapeIsPerUnit(s);
    EscapeIsPerUnit(s[..p]);
    FitIsLongest(s, limit, p);
    FitIsLongest(s, limit, |s|);
    assert s[..|s|] == s;
    if p < |s| {
      var whole := Escape(s[..p]);
      FitIsLongest(s, limit, p + 1);
      NextEntity(s, p);
      var r := limit - |whole|;
      assert Escape(s)[..limit] == whole + Entity(s[p])[..r];
      if r == 0 {
        EscapeEndsWhole(s[..p]);
        assert whole + Entity(s[p])[..0] == whole;
      } else {
        CutEntityIsPartial(whole, s[p], r);
        assert (whole + Entity(s[p])[..r])[..limit - (r - 1) - 1] == whole;
      }
    }
  }

  lemma {:induction false} NextEntity(s: Text, p: nat)
    requires p < |s|
    ensures Escape(s[..p + 1]) == Escape(s[..p]) + Entity(s[p])
    ensures Escape(s[..p]) + Entity(s[p]) <= Escape(s)
  {
    hide Entity;
    assert s == s[..p + 1] + s[p + 1..];
    EscapeSplits(s[..p + 1], s[p + 1..]);
    assert s[..p + 1] == s[..p] + [s[p]];
    EscapeSplits(s[..p], [s[p]]);
    assert [s[p]][1..] == [];
  }

  // ----- reading an escaped text

  /** What a reader makes of escaped text: `&amp;`, `&lt;`, `&gt;` and `&quot;` stand for one unit each. */
  function Unescape(t: Text): Text {
    if t == [] then []
    else if [38, 97, 109, 112, 59] <= t then [38] + Unescape(t[5..])
    else if [38, 108, 116, 59] <= t then [60] + Unescape(t[4..])
    else if [38, 103, 116, 59] <= t then [62] + Unescape(t[4..])
    else if [38, 113, 117, 111, 116, 59] <= t then [34] + Unescape(t[6..])
    else [t[0]] + Unescape(t[1..])
  }

  /** Escaping loses nothing: a reader gets the text back. */
  lemma {:induction false} UnescapeIsInverse(s: Text)
    ensures Unescape(EscapeHtml(s)) == s
  {
    EscapeIsPerUnit(s);
    if s != [] {
      UnescapeIsInverse(s[1..]);
      EscapeIsPerUnit(s[1..]);
      UnescapeEntity(s[0], Escape(s[1..]));
    }
  }

  lemma UnescapeEntity(u: Unit, rest: Text)
    ensures Unescape(Entity(u) + rest) == [u] + Unescape(rest)
  {
    var t := Entity(u) + rest;
    assert t[|Entity(u)|..] == rest;
    assert t[0] == Entity(u)[0];
    if u == LT || u == GT || u == QUOT || u == AMP {
      assert t[1] == Entity(u)[1];
    }
  }

  /** And markup characters never come through: no less-than, greater-than or quote is left. */
  lemma {:induction false} EscapedIsInert(s: Text)
    ensures 60 !in EscapeHtml(s) && 62 !in EscapeHtml(s) && 34 !in EscapeHtml(s)
  {
    hide Entity, EscapeHtml;
    EscapeIsPerUnit(s);
    if s != [] {
      EscapedIsInert(s[1..]);
      EscapeIsPerUnit(s[1..]);
      EntityIsInert(s[0]);
    }
  }

  lemma EntityIsInert(u: Unit)
    ensures 60 !in Entity(u) && 62 !in Entity(u) && 34 !in Entity(u)
  {
  }

  // ----- the message

  const MESSAGE_LIMIT: nat := 4096
  const MAX_BODY_LINES: nat := 10

  /** A line break and the ellipsis character. */
  const ELLIPSIS: Text := [10, 8230]
  const GAP: Text := [10, 10]

  function LineCap(requested: Option<int>): (cap: nat)
    ensures cap >= 1
  {
    if requested.Some? && requested.value > 0 then requested.value else MAX_BODY_LINES
  }

  function Preview(body: Text, cap: nat): Text
    requires cap >= 1
  {
    var lines := Lines.Split(body, NEWLINE);
    Lines.Join(if cap < |lines| then lines[..cap] else lines, NEWLINE)
  }

  /** The end of the formatting: the head, then a short preview of the sanitized body if there is room. */
  function FormatLiveEvent(head: Text, body: Text, bodyLines: Option<int>): Text {
    var room := MESSAGE_LIMIT - |head| - 2;
    if body == [] || room <= |ELLIPSIS| then head
    else
      var cap := LineCap(bodyLines);
      var escaped := EscapeHtml(Preview(body, cap));
      var clamped := |escaped| > room - |ELLIPSIS|;
      var shown := if clamped then ClampHtml(escaped, room - |ELLIPSIS|) else escaped;
      head + GAP + shown + if clamped || |Lines.Split(body, NEWLINE)| > cap then ELLIPSIS else []
  }

  lemma PreviewIsPrefix(body: Text, cap: nat)
    requires cap >= 1
    ensures Preview(body, cap) <= body
    ensures Preview(body, cap) == body <==> |Lines.Split(body, NEWLINE)| <= cap
    ensures |Lines.Split(Preview(body, cap), NEWLINE)| <= cap
    ensures Preview(body, cap) != body ==> |Lines.Split(Preview(body, cap), NEWLINE)| == cap && Preview(body, cap) + [NEWLINE] <= body
  {
    var lines := Lines.Split(body, NEWLINE);
    Lines.JoinSplit(body, NEWLINE);
    if cap < |lines| {
      Lines.FirstLinesArePrefix(lines, NEWLINE, cap);
      Lines.SplitHasNone(body, NEWLINE);
      Lines.SplitJoin(lines[..cap], NEWLINE);
    }
  }

  /** A longer piece of the body than the preview has too many lines. */
  lemma BeyondPreview(body: Text, cap: nat, q: nat)
    requires cap >= 1 && |Preview(body, cap)| < q <= |body|
    ensures |Lines.Split(body[..q], NEWLINE)| > cap
  {
    var preview := Preview(body, cap);
    PreviewIsPrefix(body, cap);
    var more := body[|preview| + 1..q];
    assert body[..q] == preview + [NEWLINE] + more;
    Lines.SplitCount(preview, NEWLINE);
    Lines.SplitCount(body[..q], NEWLINE);
  }

  lemma ClampFits(text: Text, limit: nat)
    ensures |ClampHtml(text, limit)| <= limit
  {
  }

  /** A message is within Telegram's ceiling exactly when its head is. */
  lemma MessageFitsExactlyWhen(head: Text, body: Text, bodyLines: Option<int>)
    ensures |FormatLiveEvent(head, body, bodyLines)| <= MESSAGE_LIMIT <==> |head| <= MESSAGE_LIMIT
  {
    hide ClampHtml, EscapeHtml, Preview;
    var room := MESSAGE_LIMIT - |head| - 2;
    if room > |ELLIPSIS| {
      ClampFits(EscapeHtml(Preview(body, LineCap(bodyLines))), room - |ELLIPSIS|);
    }
  }

  /** A message with neither body nor room for one is its head. */
  lemma BareHead(head: Text, body: Text, bodyLines: Option<int>)
    requires body == [] || |head| >= 4092
    ensures FormatLiveEvent(head, body, bodyLines) == head
  {
  }

  /** The first `p` units of the body are shown within `lines` lines and `room` escaped units, and no more
      of it could be. */
  ghost predicate ShowsMost(body: Text, p: nat, lines: int, room: int) {
    && p <= |body| && |EscapeHtml(body[..p])| <= room && |Lines.Split(body[..p], NEWLINE)| <= lines
    && forall q :: p < q <= |body| ==> |EscapeHtml(body[..q])| > room || |Lines.Split(body[..q], NEWLINE)| > lines
  }

  /** What follows the head is a blank line, the escape of the longest prefix of the body within the line
      limit (ten when none is asked for) and the room left, and an ellipsis exactly when that is not all. */
  lemma MessageShowsPrefix(head: Text, body: Text, bodyLines: Option<int>) returns (p: nat)
    requires body != [] && |head| < 4092
    ensures ShowsMost(body, p, if bodyLines.Some? && bodyLines.value > 0 then bodyLines.value else 10, 4092 - |head|)
    ensures FormatLiveEvent(head, body, bodyLines) == head + [10, 10] + EscapeHtml(body[..p]) + if p < |body| then [10, 8230] else []
  {
    var limit := MESSAGE_LIMIT - |head| - 2 - |ELLIPSIS|;
    p := PrefixShown(head, body, bodyLines);
    var preview := Preview(body, LineCap(bodyLines));
    PreviewIsPrefix(body, LineCap(bodyLines));
    PrefixLines(preview, p);
    assert body[..p] == preview[..p];
    forall q | p < q <= |body|
      ensures |EscapeHtml(body[..q])| > limit || |Lines.Split(body[..q], NEWLINE)| > LineCap(bodyLines)
    {
      if q <= |preview| {
        assert body[..q] == preview[..q];
      } else {
        BeyondPreview(body, LineCap(bodyLines), q);
      }
    }
  }

  lemma PrefixLines(text: Text, p: nat)
    requires p <= |text|
    ensures |Lines.Split(text[..p], NEWLINE)| <= |Lines.Split(text, NEWLINE)|
  {
    assert text == text[..p] + text[p..];
    Lines.SplitCount(text, NEWLINE);
    Lines.SplitCount(text[..p], NEWLINE);
  }

  lemma PrefixShown(head: Text, body: Text, bodyLines: Option<int>) returns (p: nat)
    requires body != [] && MESSAGE_LIMIT - |head| - 2 > |ELLIPSIS|
    ensures p <= |Preview(body, LineCap(bodyLines))| <= |body|
    ensures var limit, preview := MESSAGE_LIMIT - |head| - 2 - |ELLIPSIS|, Preview(body, LineCap(bodyLines));
            |EscapeHtml(preview[..p])| <= limit && forall q :: p < q <= |preview| ==> |EscapeHtml(preview[..q])| > limit
    ensures FormatLiveEvent(head, body, bodyLines) == head + GAP + EscapeHtml(body[..p]) + if p < |body| then ELLIPSIS else []
  {
    hide ClampHtml, EscapeHtml, Preview, Escape, Fit, LineCap;
    var limit := MESSAGE_LIMIT - |head| - 2 - |ELLIPSIS|;
    var cap := LineCap(bodyLines);
    var preview := Preview(body, cap);
    PreviewIsPrefix(body, cap);
    EscapeIsPerUnit(preview);
    assert preview[..|preview|] == preview;
    FitIsLongest(preview, limit, |preview|);
    forall q | 0 <= q <= |preview|
      ensures |EscapeHtml(preview[..q])| <= limit <==> q <= Fit(preview, limit)
    {
      EscapeIsPerUnit(preview[..q]);
      FitIsLongest(preview, limit, q);
    }
    if |EscapeHtml(preview)| > limit {
      p := Fit(preview, limit);
      ClampCommutesWithEscape(preview, limit);
      assert preview[..p] == body[..p];
    } else {
      p := |preview|;
      assert body[..p] == preview;
    }
  }
}
