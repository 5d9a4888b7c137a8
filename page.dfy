/** What theme.js and awesome.js share: the colours of the page they read and write, the
    rolling buffer of typed keys, `includes`, `isDarkMode`, and the rainbow repaint of
    updateColors. Colours stay symbolic: a repainted colour is the hue, saturation and
    lightness handed to hslToRgb, not the RGB triple it computes. */
module Page {

  datatype Option<T> = None | Some(value: T)

  /** An RGB triple, or the triple hslToRgb(h, s, l) produces, left unevaluated. */
  datatype Colour = Rgb(r: int, g: int, b: int) | Hsl(h: int, s: int, l: int)

  /** window.constellationColors: particle base and highlight, ambient line and edge colours. */
  datatype Palette = Palette(base: Colour, highlight: Colour, line: Colour, edge: Colour)

  /** The palette constellation.js publishes when the page loads. */
  const START_PALETTE: Palette :=
    Palette(Rgb(183, 185, 188), Rgb(147, 197, 253), Rgb(183, 185, 188), Rgb(147, 197, 253))

  /** An inline style value: the text the page had (the empty text when no inline style is set),
      or a colour written by the rainbow mode. */
  datatype Style = Css(text: string) | Shade(c: Colour)

  const UNSET: Style := Css("")

  /** A [data-social] button: inline background and border colour, and its data-hover-color
      attribute (None while the attribute is absent). */
  datatype Button = Button(background: Style, border: Style, hover: Option<Style>)

  /** The colours the rainbow mode touches: body background, the social buttons (a fixed set,
      in document order) and the constellation palette (absent when the page has no canvas). */
  datatype Look = Look(background: Style, buttons: seq<Button>, palette: Option<Palette>)

  /** The key buffers remember this many characters. */
  const BUFFER_LEN: nat := 7

  /** The saturation every rainbow colour is drawn with. */
  const SATURATION: int := 70

  // ---------------------------------------------------------------- typed keys

  function LowerChar(c: char): char
  {
    if 'A' <= c <= 'Z' then (c as int + 32) as char else c
  }

  /** `e.key.toLowerCase()` on the ASCII letters. */
  function Lower(s: string): (r: string)
    ensures |r| == |s|
    ensures forall i | 0 <= i < |r| :: !('A' <= r[i] <= 'Z')
    ensures forall i | 0 <= i < |s| :: 'A' <= s[i] <= 'Z' || r[i] == s[i]
    ensures forall i | 0 <= i < |s| && 'A' <= s[i] <= 'Z' :: r[i] == (s[i] as int + 32) as char
  {
    if s == [] then [] else [LowerChar(s[0])] + Lower(s[1..])
  }

  /** A lower-case letter is typed as it is, and so is its capital: the handlers hear a word
      whatever the case of the keys that spell it. */
  lemma EitherCase(c: char)
    requires 'a' <= c <= 'z'
    ensures Lower([c]) == [c]
    ensures Lower([(c as int - 32) as char]) == [c]
  {
    assert [c][1..] == [];
    var C := (c as int - 32) as char;
    assert [C][1..] == [];
  }

  /** `keyBuffer.slice(-7)` once the buffer is longer than seven characters. */
  function Remember(s: string): (r: string)
    ensures |r| <= BUFFER_LEN
    ensures |s| <= BUFFER_LEN ==> r == s
    ensures |s| >= BUFFER_LEN ==> |r| == BUFFER_LEN
    ensures r == s[|s| - |r|..]
  {
    if |s| > BUFFER_LEN then s[|s| - BUFFER_LEN..] else s
  }

  /** Trimming as keys arrive loses nothing that trimming once at the end would keep: the
      buffer always holds the last seven characters typed since it was last cleared. */
  lemma RememberAbsorbs(s: string, t: string)
    ensures Remember(Remember(s) + t) == Remember(s + t)
  {
    if |s| > BUFFER_LEN {
      var m := s[|s| - BUFFER_LEN..];
      assert s + t == s[..|s| - BUFFER_LEN] + (m + t);
      LastOfJoin(s[..|s| - BUFFER_LEN], m + t, BUFFER_LEN);
    }
  }

  /** The last `n` characters of `a + b` are those of `b` when `b` has that many. */
  lemma LastOfJoin(a: string, b: string, n: nat)
    requires n <= |b|
    ensures (a + b)[|a + b| - n..] == b[|b| - n..]
  {
    assert (a + b)[|a|..] == b;
    assert (a + b)[|a + b| - n..] == (a + b)[|a|..][|b| - n..];
  }

  /** Pressing a key that lowers to the next character of `s`, one keypress at a time, keeps
      the buffer equal to the last seven characters of what has been typed of `s`. */
  lemma TypedNext(buf: string, s: string, k: nat, c: char)
    requires k < |s| && Lower([c]) == [s[k]]
    ensures Remember(Remember(buf + s[..k]) + Lower([c])) == Remember(buf + s[..k + 1])
  {
    var key := [s[k]];
    assert buf + s[..k] + key == buf + s[..k + 1] by {
      assert s[..k + 1] == s[..k] + key;
    }
    RememberAbsorbs(buf + s[..k], key);
  }

  /** `w` occurs in `s` starting at index `i`. */
  predicate OccursAt(s: string, w: string, i: int)
  {
    0 <= i && i + |w| <= |s| && s[i..i + |w|] == w
  }

  /** String.prototype.includes. */
  predicate Includes(s: string, w: string)
    ensures Includes(s, w) ==> |w| <= |s|
    ensures w == [] ==> Includes(s, w)
    decreases |s|
  {
    (|w| <= |s| && s[..|w|] == w) || (s != [] && Includes(s[1..], w))
  }

  lemma IncludesAt(s: string, w: string)
    ensures Includes(s, w) <==> exists i :: OccursAt(s, w, i)
  {
    if Includes(s, w) {
      var i := FirstAt(s, w);
    }
    if i :| OccursAt(s, w, i) {
      AtIncludes(s, w, i);
    }
  }

  /** Where `includes` finds `w`. */
  lemma {:induction false} FirstAt(s: string, w: string) returns (i: int)
    requires Includes(s, w)
    ensures OccursAt(s, w, i)
    decreases |s|
  {
    if |w| <= |s| && s[..|w|] == w {
      i := 0;
    } else {
      var j := FirstAt(s[1..], w);
      assert s[1..][j..j + |w|] == s[j + 1..j + 1 + |w|];
      i := j + 1;
    }
  }

  /** `includes` finds every occurrence. */
  lemma {:induction false} AtIncludes(s: string, w: string, i: int)
    requires OccursAt(s, w, i)
    ensures Includes(s, w)
    decreases i
  {
    if i > 0 {
      assert s[1..][i - 1..i - 1 + |w|] == s[i..i + |w|];
      AtIncludes(s[1..], w, i - 1);
    }
  }

  /** A buffer whose last characters spell `w` includes `w`, however it was trimmed. */
  lemma EndsWithIncludes(s: string, w: string)
    requires |w| <= BUFFER_LEN && |w| <= |s| && s[|s| - |w|..] == w
    ensures Includes(Remember(s), w)
  {
    var r := Remember(s);
    assert r[|r| - |w|..] == s[|s| - |w|..];
    assert OccursAt(r, w, |r| - |w|);
    IncludesAt(r, w);
  }

  /** What a part of `s` includes, `s` includes. */
  lemma IncludesWithin(s: string, n: nat, w: string)
    requires n <= |s|
    ensures Includes(s[n..], w) ==> Includes(s, w)
  {
    IncludesAt(s[n..], w);
    IncludesAt(s, w);
    if i :| OccursAt(s[n..], w, i) {
      assert s[n..][i..i + |w|] == s[n + i..n + i + |w|];
      assert OccursAt(s, w, n + i);
    }
  }

  /** The letter of `s` under position `k` of an occurrence of `w`. */
  lemma LetterAt(s: string, w: string, i: int, k: int)
    requires OccursAt(s, w, i) && 0 <= k < |w|
    ensures s[i + k] == w[k]
  {
    assert s[i..i + |w|][k] == s[i + k];
  }

  /** A word `buf` does not include does not occur in `buf + p` at a place inside `buf`. */
  lemma NotInPrefix(buf: string, p: string, w: string, i: int)
    requires !Includes(buf, w) && 0 <= i && i + |w| <= |buf|
    ensures !OccursAt(buf + p, w, i)
  {
    assert (buf + p)[i..i + |w|] == buf[i..i + |w|];
    IncludesAt(buf, w);
    assert !OccursAt(buf, w, i);
  }

  /** One letter out of place rules an occurrence out. */
  lemma LetterDiffers(s: string, w: string, i: int, k: int)
    requires 0 <= i && i + |w| <= |s| && 0 <= k < |w| && s[i + k] != w[k]
    ensures !OccursAt(s, w, i)
  {
    assert s[i..i + |w|][k] == s[i + k];
  }

  // ---------------------------------------------------------------- dark mode

  /** isDarkMode: an explicit data-theme of light or dark decides; otherwise the system
      preference (`prefersDark`, false where matchMedia is missing) does. */
  function IsDarkMode(theme: Option<string>, prefersDark: bool): (dark: bool)
    ensures theme == Some("light") ==> !dark
    ensures theme == Some("dark") ==> dark
    ensures theme != Some("light") && theme != Some("dark") ==> dark == prefersDark
  {
    if theme == Some("light") then false
    else if theme == Some("dark") then true
    else prefersDark
  }

  // ---------------------------------------------------------------- repaint

  /** The lightness of each repainted surface, by colour scheme. */
  datatype Tones = Tones(background: int, button: int, hover: int, base: int, highlight: int)

  function TonesFor(dark: bool): Tones
  {
    if dark then Tones(15, 65, 55, 35, 50) else Tones(85, 55, 45, 70, 60)
  }

  function Tint(hue: int, lightness: int): Style
  {
    Shade(Hsl(hue, SATURATION, lightness))
  }

  function PaintedButton(hue: int, t: Tones): Button
  {
    Button(Tint(hue, t.button), Tint(hue, t.button), Some(Tint(hue, t.hover)))
  }

  function PaintedPalette(hue: int, t: Tones): Palette
  {
    Palette(Hsl(hue, SATURATION, t.base), Hsl(hue, SATURATION, t.highlight),
            Hsl(hue, SATURATION, t.base), Hsl(hue, SATURATION, t.highlight))
  }

  /** The colour `s` carries, when it carries one. */
  function HueOf(s: Style): Option<int>
  {
    if s.Shade? && s.c.Hsl? then Some(s.c.h) else None
  }

  /** updateColors for the current hue: every surface is repainted in that hue, in the tones
      of the current colour scheme; the set of buttons and the presence of the palette stay. */
  function Repaint(l: Look, hue: int, dark: bool): (r: Look)
    ensures |r.buttons| == |l.buttons| && r.palette.Some? == l.palette.Some?
    ensures HueOf(r.background) == Some(hue)
    ensures forall i | 0 <= i < |r.buttons| ::
      HueOf(r.buttons[i].background) == Some(hue) && r.buttons[i].border == r.buttons[i].background
    ensures r.palette.Some? ==>
      r.palette.value.line == r.palette.value.base && r.palette.value.edge == r.palette.value.highlight
  {
    var t := TonesFor(dark);
    Look(Tint(hue, t.background),
         seq(|l.buttons|, _ => PaintedButton(hue, t)),
         if l.palette.Some? then Some(PaintedPalette(hue, t)) else None)
  }

  /** A repaint leaves nothing of the previous one behind: however many frames ran, the page
      shows only the last. */
  lemma RepaintForgets(l: Look, h1: int, d1: bool, h2: int, d2: bool)
    ensures Repaint(Repaint(l, h1, d1), h2, d2) == Repaint(l, h2, d2)
  {
  }

  /** The button as theme.js's restoreColors writes it back from its captured copy
      (`hoverColor || ''` turns a missing attribute into the empty text). */
  function RestoredButton(b: Button): Button
  {
    Button(b.background, b.border, Some(if b.hover.Some? then b.hover.value else UNSET))
  }

  /** What a restore from a snapshot of `l` can give back: everything except that a missing
      hover attribute comes back as an empty one. */
  function Settled(l: Look): (r: Look)
    ensures r.background == l.background && r.palette == l.palette && |r.buttons| == |l.buttons|
    ensures forall i | 0 <= i < |l.buttons| ::
      r.buttons[i].background == l.buttons[i].background
      && r.buttons[i].border == l.buttons[i].border
      && r.buttons[i].hover.Some?
  {
    Look(l.background, seq(|l.buttons|, i requires 0 <= i < |l.buttons| => RestoredButton(l.buttons[i])), l.palette)
  }
}
