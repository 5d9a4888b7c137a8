/** theme.js: typed words switch the page between the light and the dark theme, and toggle a
    rainbow mode that cycles the page colours through the hues and puts them back afterwards. */
module Theme {
  import opened Page

  /** The words the keypress handler listens for, in the order it checks them. */
  datatype Word = Light | Dark | Awesome

  function Spelling(w: Word): string
  {
    match w
    case Light => "light"
    case Dark => "dark"
    case Awesome => "awesome"
  }

  /** The keypress handler's test: light is checked before dark, dark before awesome. */
  function Detect(buf: string): (r: Option<Word>)
    ensures r.Some? ==> Includes(buf, Spelling(r.value))
    ensures r.None? <==> forall w: Word :: !Includes(buf, Spelling(w))
  {
    if Includes(buf, "light") then Some(Light)
    else if Includes(buf, "dark") then Some(Dark)
    else if Includes(buf, "awesome") then Some(Awesome)
    else None
  }

  /** A buffer as the handler leaves it between keypresses. */
  predicate Quiet(buf: string)
  {
    |buf| <= BUFFER_LEN && Detect(buf) == None
  }

  // ---------------------------------------------------------------- the three words never meet

  /** The letter `w` has at position `k` differs from the one `v` has at position `m`, for each
      overlap two occurrences in a seven-character buffer force. */
  lemma Apart(buf: string, w: Word, i: int, v: Word, j: int)
    requires |buf| <= BUFFER_LEN && w != v
    requires OccursAt(buf, Spelling(w), i)
    ensures !OccursAt(buf, Spelling(v), j)
  {
    var sw, sv := Spelling(w), Spelling(v);
    if 0 <= j && j + |sv| <= |buf| {
      // the later of the two starts lies inside both occurrences
      var p := if i <= j then j else i;
      LetterAt(buf, sw, i, p - i);
      assert sw[p - i] != sv[p - j];
      LetterDiffers(buf, sv, j, p - j);
    }
  }

  /** In a buffer of at most seven characters two different words never both occur, so the
      order in which the handler tests them never matters. */
  lemma WordsExclusive(buf: string, w: Word, v: Word)
    requires |buf| <= BUFFER_LEN && w != v
    ensures !(Includes(buf, Spelling(w)) && Includes(buf, Spelling(v)))
  {
    IncludesAt(buf, Spelling(w));
    IncludesAt(buf, Spelling(v));
    if i :| OccursAt(buf, Spelling(w), i) {
      forall j ensures !OccursAt(buf, Spelling(v), j) {
        Apart(buf, w, i, v, j);
      }
    }
  }

  /** In a remembered buffer the handler reports exactly the word the buffer contains. */
  lemma DetectExact(buf: string, w: Word)
    requires |buf| <= BUFFER_LEN
    ensures Detect(buf) == Some(w) <==> Includes(buf, Spelling(w))
  {
    match w
    case Light =>
    case Dark =>
      if Includes(buf, "dark") {
        WordsExclusive(buf, Dark, Light);
      }
    case Awesome =>
      if Includes(buf, "awesome") {
        WordsExclusive(buf, Awesome, Light);
        WordsExclusive(buf, Awesome, Dark);
      }
  }

  /** Whatever the buffer held, a word whose letters end what was typed is the one heard. */
  lemma WordHeard(buf: string, w: Word)
    ensures Detect(Remember(buf + Spelling(w))) == Some(w)
  {
    var s := buf + Spelling(w);
    assert s[|s| - |Spelling(w)|..] == Spelling(w);
    EndsWithIncludes(s, Spelling(w));
    DetectExact(Remember(s), w);
  }

  // ---------------------------------------------------------------- typing a word

  /** One keypress on the buffer: the buffer it leaves behind and the word it completes. */
  function Keystroke(buf: string, key: string): (r: (string, Option<Word>))
    ensures Quiet(r.0)
    ensures r.1.None? ==> r.0 == Remember(buf + Lower(key))
    ensures r.1.Some? ==> r.0 == [] && Includes(Remember(buf + Lower(key)), Spelling(r.1.value))
  {
    var b := Remember(buf + Lower(key));
    var heard := Detect(b);
    (if heard.Some? then [] else b, heard)
  }

  /** No occurrence of any word in a quiet buffer followed by a proper prefix of a word: the
      prefix would have to end one, and the only letter a prefix can end in that also ends a
      word is the "e" of "awe", which does not end "awesome". */
  lemma NotYet(buf: string, w: Word, k: nat, v: Word, i: int)
    requires Quiet(buf) && 1 <= k < |Spelling(w)|
    ensures !OccursAt(buf + Spelling(w)[..k], Spelling(v), i)
  {
    var x, sv := buf + Spelling(w)[..k], Spelling(v);
    if 0 <= i && i + |sv| <= |x| {
      if i + |sv| <= |buf| {
        assert !Includes(buf, sv);
        NotInPrefix(buf, Spelling(w)[..k], sv, i);
      } else {
        var e := i + |sv| - 1;
        assert x[e] == Spelling(w)[e - |buf|];
        if w == Awesome && v == Awesome && e - |buf| == 2 {
          assert x[|buf|] == 'a';
          LetterDiffers(x, sv, i, 4);
        } else {
          EndsApart(w, e - |buf|, v);
          LetterDiffers(x, sv, i, |sv| - 1);
        }
      }
    }
  }

  /** A letter before the last of one word is never the last letter of a word, save the "e"
      of "awe". */
  lemma EndsApart(w: Word, j: int, v: Word)
    requires 0 <= j < |Spelling(w)| - 1 && !(w == Awesome && v == Awesome && j == 2)
    ensures Spelling(w)[j] != Spelling(v)[|Spelling(v)| - 1]
  {
    match w
    case Light =>
    case Dark =>
    case Awesome =>
  }

  /** Typing the letters of a word, the handler hears nothing before the last one. */
  lemma NoEarlyFire(buf: string, w: Word, k: nat)
    requires Quiet(buf) && 1 <= k < |Spelling(w)|
    ensures Detect(Remember(buf + Spelling(w)[..k])) == None
  {
    var x := buf + Spelling(w)[..k];
    forall v: Word
      ensures !Includes(Remember(x), Spelling(v))
    {
      forall i
        ensures !OccursAt(x, Spelling(v), i)
      {
        NotYet(buf, w, k, v, i);
      }
      IncludesAt(x, Spelling(v));
      IncludesWithin(x, |x| - |Remember(x)|, Spelling(v));
    }
  }

  /** Typing a word letter by letter from a quiet buffer, each letter in either case: once its
      first `k` letters are in, the keypress of the next one hears nothing and leaves the last
      seven characters typed, except for the final letter, which is heard as that word and
      clears the buffer. (Before the first letter the buffer is `buf` itself, since a quiet
      buffer is never trimmed.) EitherCase gives the keys that lower to a letter. */
  lemma TypingWord(buf: string, w: Word, k: nat, key: char)
    requires Quiet(buf) && k < |Spelling(w)| && Lower([key]) == [Spelling(w)[k]]
    ensures Keystroke(Remember(buf + Spelling(w)[..k]), [key])
            == if k + 1 < |Spelling(w)| then (Remember(buf + Spelling(w)[..k + 1]), None) else ([], Some(w))
  {
    var s := Spelling(w);
    TypedNext(buf, s, k, key);
    if k + 1 < |s| {
      NoEarlyFire(buf, w, k + 1);
    } else {
      assert s[..k + 1] == s;
      WordHeard(buf, w);
    }
  }

  // ---------------------------------------------------------------- applyTheme and isDarkMode

  /** The data-theme attribute applyTheme leaves: light and dark are set, anything else removes it. */
  function Attribute(theme: string): (r: Option<string>)
    ensures r.Some? <==> theme == "light" || theme == "dark"
    ensures r.Some? ==> r.value == theme
  {
    if theme == "light" || theme == "dark" then Some(theme) else None
  }

  /** The colorScheme applyTheme leaves. */
  function Scheme(theme: string): (r: string)
    ensures Attribute(theme).Some? ==> r == Attribute(theme).value
    ensures Attribute(theme).None? ==> r == "normal"
  {
    if theme == "light" || theme == "dark" then theme else "normal"
  }

  /** After applyTheme(t) isDarkMode answers dark for "dark", light for "light", and follows the
      system preference for any other theme, whose colour scheme is then "normal". */
  lemma AppliedThemeDecides(theme: string, prefersDark: bool)
    ensures IsDarkMode(Attribute(theme), prefersDark) == (theme == "dark" || (theme != "light" && prefersDark))
    ensures Attribute(theme) == None <==> Scheme(theme) == "normal"
  {
  }

  // ---------------------------------------------------------------- restoring the colours

  /** restoreColors with a captured look `snap`: the background and every captured button come
      back (a hover colour that was missing comes back empty), and so does the palette when both
      the capture and the page have one. */
  function Restore(l: Look, snap: Look): (r: Look)
    requires |snap.buttons| == |l.buttons|
    ensures |r.buttons| == |l.buttons|
  {
    Look(snap.background,
         seq(|l.buttons|, i requires 0 <= i < |l.buttons| => RestoredButton(snap.buttons[i])),
         if snap.palette.Some? && l.palette.Some? then snap.palette else l.palette)
  }

  /** However many frames repainted the page after the capture, restoring gives back the look
      that was captured, up to missing hover colours coming back empty. */
  lemma RestoreUndoesRepaint(l: Look, hue: int, dark: bool)
    ensures Restore(Repaint(l, hue, dark), l) == Settled(l)
  {
  }

  /** Restoring twice is restoring once. */
  lemma RestoreIdempotent(l: Look, snap: Look)
    requires |snap.buttons| == |l.buttons|
    ensures Restore(Restore(l, snap), snap) == Restore(l, snap)
  {
  }

  // ---------------------------------------------------------------- the page script

  /** The state theme.js keeps and the page state it writes. */
  class ThemeSwitch {
    /** The last characters typed, lowercased. */
    var keyBuffer: string
    /** The root element's data-theme attribute. */
    var dataTheme: Option<string>
    /** The root element's style.colorScheme. */
    var colorScheme: string
    /** localStorage's "theme-preference". */
    var preference: Option<string>
    var isAwesome: bool
    var hue: int
    /** The pending animation frame request; 0 stands for null (request ids are positive). */
    var animationFrame: nat
    /** The look captured when the rainbow mode first started. */
    var originalColors: Option<Look>
    /** The page's colours. */
    var look: Look

    /** What holds between events: the buffer has heard nothing, and the rainbow state is coherent. */
    ghost predicate Valid()
      reads this
    {
      Quiet(keyBuffer) && Rainbow()
    }

    /** The hue is an angle in [0, 360); the capture matches the page's buttons; a running rainbow
        has captured the colours, and a stopped one has no frame pending. */
    ghost predicate Rainbow()
      reads this
    {
      && 0 <= hue < 360
      && (originalColors.Some? ==> |originalColors.value.buttons| == |look.buttons|)
      && (isAwesome ==> originalColors.Some?)
      && (!isAwesome ==> animationFrame == 0)
    }

    /** Page load: a non-empty saved preference is applied to the page as it came. */
    constructor(saved: Option<string>, theme: Option<string>, scheme: string, look: Look)
      ensures Valid()
      ensures keyBuffer == [] && !isAwesome && hue == 0 && animationFrame == 0 && originalColors == None
      ensures this.look == look && preference == saved
      ensures saved.Some? && saved.value != [] ==>
        dataTheme == Attribute(saved.value) && colorScheme == Scheme(saved.value)
      ensures saved.None? || saved.value == [] ==> dataTheme == theme && colorScheme == scheme
    {
      keyBuffer, dataTheme, colorScheme, preference := [], theme, scheme, saved;
      isAwesome, hue, animationFrame, originalColors, this.look := false, 0, 0, None, look;
      new;
      if saved.Some? && saved.value != [] {
        ApplyTheme(saved.value);
      }
    }

    /** applyTheme: set or remove the attribute and the colour scheme, and persist the argument. */
    method ApplyTheme(theme: string)
      modifies this`dataTheme, this`colorScheme, this`preference
      ensures dataTheme == Attribute(theme) && colorScheme == Scheme(theme)
      ensures preference == Some(theme)
    {
      if theme == "light" {
        colorScheme := "light";
        dataTheme := Some("light");
      } else if theme == "dark" {
        colorScheme := "dark";
        dataTheme := Some("dark");
      } else {
        colorScheme := "normal";
        dataTheme := None;
      }
      preference := Some(theme);
    }

    /** The keypress handler: remember the key, then act on the word the buffer holds (light
        before dark before awesome) and clear the buffer. */
    method Keypress(key: string, prefersDark: bool, ticket: nat)
      requires Valid()
      modifies this
      ensures Valid()
      ensures keyBuffer == Keystroke(old(keyBuffer), key).0
      ensures Keystroke(old(keyBuffer), key).1.None? ==> Unmoved()
      ensures Keystroke(old(keyBuffer), key).1.Some? ==> Heard(Keystroke(old(keyBuffer), key).1.value, prefersDark, ticket)
    {
      var buffer := keyBuffer + Lower(key);
      if |buffer| > BUFFER_LEN {
        buffer := buffer[|buffer| - BUFFER_LEN..];
      }
      assert buffer == Remember(keyBuffer + Lower(key));
      var heard := Detect(buffer);
      assert Keystroke(keyBuffer, key) == (if heard.Some? then [] else buffer, heard);
      if heard.Some? {
        Respond(heard.value, prefersDark, ticket);
        buffer := [];
      }
      keyBuffer := buffer;
    }

    /** Nothing but the key buffer changed. */
    twostate predicate Unmoved()
      reads this`dataTheme, this`colorScheme, this`preference, this`isAwesome, this`hue
      reads this`look, this`animationFrame, this`originalColors
    {
      && dataTheme == old(dataTheme) && colorScheme == old(colorScheme) && preference == old(preference)
      && isAwesome == old(isAwesome) && hue == old(hue) && look == old(look)
      && animationFrame == old(animationFrame) && originalColors == old(originalColors)
    }

    /** What hearing `w` does: light and dark apply that theme and leave the rainbow alone;
        awesome toggles the rainbow and leaves the theme alone. */
    twostate predicate Heard(w: Word, prefersDark: bool, ticket: nat)
      reads this`dataTheme, this`colorScheme, this`preference, this`isAwesome, this`hue
      reads this`look, this`animationFrame, this`originalColors
    {
      if w == Awesome then
        && dataTheme == old(dataTheme) && colorScheme == old(colorScheme) && preference == old(preference)
        && Toggled(prefersDark, ticket)
      else
        && dataTheme == Attribute(Spelling(w)) && colorScheme == Spelling(w) && preference == Some(Spelling(w))
        && isAwesome == old(isAwesome) && hue == old(hue) && look == old(look)
        && animationFrame == old(animationFrame) && originalColors == old(originalColors)
    }

    /** The branch of the handler that acts on a heard word. */
    method Respond(w: Word, prefersDark: bool, ticket: nat)
      requires Rainbow()
      modifies this`dataTheme, this`colorScheme, this`preference
      modifies this`isAwesome, this`originalColors, this`hue, this`look, this`animationFrame
      ensures Rainbow() && Heard(w, prefersDark, ticket)
    {
      match w
      case Light => ApplyTheme("light");
      case Dark => ApplyTheme("dark");
      case Awesome => ToggleAwesome(prefersDark, ticket);
    }

    /** captureOriginalColors: only the first capture is kept. */
    method CaptureOriginalColors()
      modifies this`originalColors
      ensures originalColors == if old(originalColors).Some? then old(originalColors) else Some(look)
    {
      if originalColors.None? {
        originalColors := Some(look);
      }
    }

    /** restoreColors: nothing to do before a capture; otherwise write the capture back. */
    method RestoreColors()
      requires Rainbow()
      modifies this`look
      ensures Rainbow()
      ensures originalColors.None? ==> look == old(look)
      ensures originalColors.Some? ==> look == Restore(old(look), originalColors.value)
    {
      if originalColors.None? {
        return;
      }
      var snap := originalColors.value;
      var buttons := look.buttons;
      for i := 0 to |snap.buttons|
        invariant |buttons| == |look.buttons|
        invariant forall k | 0 <= k < i :: buttons[k] == RestoredButton(snap.buttons[k])
      {
        buttons := buttons[i := RestoredButton(snap.buttons[i])];
      }
      var palette := if snap.palette.Some? && look.palette.Some? then snap.palette else look.palette;
      look := Look(snap.background, buttons, palette);
    }

    /** updateColors: repaint the page in the current hue, in the tones of the current scheme. */
    method UpdateColors(prefersDark: bool)
      requires Rainbow()
      modifies this`look
      ensures Rainbow()
      ensures look == Repaint(old(look), hue, IsDarkMode(dataTheme, prefersDark))
    {
      var t := TonesFor(IsDarkMode(dataTheme, prefersDark));
      var background := Tint(hue, t.background);
      var buttons := look.buttons;
      for i := 0 to |buttons|
        invariant |buttons| == |look.buttons|
        invariant forall k | 0 <= k < i :: buttons[k] == PaintedButton(hue, t)
      {
        buttons := buttons[i := PaintedButton(hue, t)];
      }
      var palette := if look.palette.Some? then Some(PaintedPalette(hue, t)) else None;
      look := Look(background, buttons, palette);
    }

    /** animate: a stopped rainbow does nothing; a running one moves one degree round the
        colour wheel, repaints, and asks for the next frame (the host's id is `ticket`). */
    method Animate(prefersDark: bool, ticket: nat)
      requires Rainbow()
      modifies this`hue, this`look, this`animationFrame
      ensures Rainbow()
      ensures !isAwesome ==> hue == old(hue) && look == old(look) && animationFrame == old(animationFrame)
      ensures isAwesome ==> hue == (old(hue) + 1) % 360 && animationFrame == ticket
      ensures isAwesome ==> look == Repaint(old(look), hue, IsDarkMode(dataTheme, prefersDark))
    {
      if !isAwesome {
        return;
      }
      hue := (hue + 1) % 360;
      UpdateColors(prefersDark);
      animationFrame := ticket;
    }

    /** What toggleAwesome does: the flag flips; starting captures the colours (once), moves the
        hue one degree, repaints and records the frame request; stopping cancels the pending
        frame and restores the captured colours. */
    twostate predicate Toggled(prefersDark: bool, ticket: nat)
      reads this`dataTheme, this`colorScheme, this`preference, this`isAwesome, this`hue
      reads this`look, this`animationFrame, this`originalColors
    {
      && isAwesome == !old(isAwesome)
      && (isAwesome ==>
            originalColors == (if old(originalColors).Some? then old(originalColors) else Some(old(look)))
            && hue == (old(hue) + 1) % 360 && animationFrame == ticket
            && look == Repaint(old(look), hue, IsDarkMode(dataTheme, prefersDark)))
      && (!isAwesome ==>
            originalColors == old(originalColors) && originalColors.Some? && hue == old(hue) && animationFrame == 0
            && |originalColors.value.buttons| == |old(look).buttons|
            && look == Restore(old(look), originalColors.value))
    }

    /** toggleAwesome: starting captures the colours (once) and animates; stopping cancels the
        pending frame and restores the captured colours. */
    method ToggleAwesome(prefersDark: bool, ticket: nat)
      requires Rainbow()
      modifies this`isAwesome, this`originalColors, this`hue, this`look, this`animationFrame
      ensures Rainbow() && Toggled(prefersDark, ticket)
    {
      isAwesome := !isAwesome;
      if isAwesome {
        CaptureOriginalColors();
        Animate(prefersDark, ticket);
      } else {
        if animationFrame != 0 {
          animationFrame := 0;
        }
        RestoreColors();
      }
    }
  }
}
