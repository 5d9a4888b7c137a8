/** awesome.js: typing "awesome" toggles a rainbow mode that cycles the page colours through
    the hues; stopping it clears the inline colours and resets the constellation palette. */
module Awesome {
  import opened Page

  const WORD: string := "awesome"

  /** The constellation palette restoreColors writes back, as awesome.js declares it. It differs
      from the palette the constellation starts with in the particle and line colours. */
  const ORIGINAL_COLORS: Palette :=
    Palette(Rgb(229, 231, 235), Rgb(147, 197, 253), Rgb(229, 231, 235), Rgb(147, 197, 253))

  /** A button with its inline colours and hover colour cleared. */
  const CLEARED: Button := Button(UNSET, UNSET, Some(UNSET))

  // ---------------------------------------------------------------- restoreColors

  /** restoreColors as written: the inline colours of the body and of every button cleared, and
      a present palette reset to ORIGINAL_COLORS. */
  function ResetAsWritten(l: Look): (r: Look)
    ensures r.background == UNSET && |r.buttons| == |l.buttons|
    ensures forall i | 0 <= i < |r.buttons| :: r.buttons[i] == CLEARED
    ensures l.palette.Some? <==> r.palette == Some(ORIGINAL_COLORS)
    ensures l.palette.None? <==> r.palette == None
  {
    Look(UNSET, seq(|l.buttons|, _ => CLEARED), if l.palette.Some? then Some(ORIGINAL_COLORS) else None)
  }

  /** A page as loaded shows the rainbow for one frame and is switched back: the particles and
      ambient lines do not get their starting colour back. */
  lemma ResetAsWrittenRecolours(l: Look, hue: int, dark: bool)
    requires l.palette == Some(START_PALETTE)
    ensures ResetAsWritten(Repaint(l, hue, dark)).palette != l.palette
    ensures ResetAsWritten(Repaint(l, hue, dark)).palette.value.base != START_PALETTE.base
  {
  }

  /** Stopping the rainbow as written undoes every frame of it: the result does not depend on
      the repaints, and a page with a palette is left with ORIGINAL_COLORS. */
  lemma ResetAsWrittenUndoesRepaint(l: Look, hue: int, dark: bool)
    ensures ResetAsWritten(Repaint(l, hue, dark)) == ResetAsWritten(l)
    ensures l.palette.Some? ==> ResetAsWritten(Repaint(l, hue, dark)).palette == Some(ORIGINAL_COLORS)
  {
  }

  /** Resetting twice as written is resetting once. */
  lemma ResetAsWrittenIdempotent(l: Look)
    ensures ResetAsWritten(ResetAsWritten(l)) == ResetAsWritten(l)
  {
  }

  /** restoreColors with the palette reset to the one the constellation starts with: the
      corrected definition, not the one the page runs. */
  function Reset(l: Look): (r: Look)
    ensures r.background == UNSET && |r.buttons| == |l.buttons|
    ensures forall i | 0 <= i < |r.buttons| :: r.buttons[i] == CLEARED
    ensures l.palette.Some? <==> r.palette == Some(START_PALETTE)
    ensures l.palette.None? <==> r.palette == None
  {
    Look(UNSET, seq(|l.buttons|, _ => CLEARED), if l.palette.Some? then Some(START_PALETTE) else None)
  }

  /** Stopping the rainbow undoes every frame of it: the result does not depend on the
      repaints, and a page whose palette was the starting one gets that palette back. */
  lemma ResetUndoesRepaint(l: Look, hue: int, dark: bool)
    ensures Reset(Repaint(l, hue, dark)) == Reset(l)
    ensures l.palette.Some? ==> Reset(Repaint(l, hue, dark)).palette == Some(START_PALETTE)
  {
  }

  /** Resetting twice is resetting once. */
  lemma ResetIdempotent(l: Look)
    ensures Reset(Reset(l)) == Reset(l)
  {
  }

  // ---------------------------------------------------------------- the key buffer

  /** A buffer as the handler leaves it between keypresses. */
  predicate Unheard(buf: string)
  {
    |buf| <= BUFFER_LEN && !Includes(buf, WORD)
  }

  /** One keypress: the buffer it leaves behind, and whether it completed "awesome". */
  function Keystroke(buf: string, key: string): (r: (string, bool))
    ensures Unheard(r.0)
    ensures !r.1 ==> r.0 == Remember(buf + Lower(key))
    ensures r.1 ==> r.0 == [] && Includes(Remember(buf + Lower(key)), WORD)
  {
    var b := Remember(buf + Lower(key));
    if Includes(b, WORD) then ([], true) else (b, false)
  }

  /** A buffer that has not heard the word, followed by a proper prefix of it, does not hold
      it: only the "e" of "awe" could end it, and "awe" does not end "awesome". */
  lemma NotYet(buf: string, k: nat, i: int)
    requires !Includes(buf, WORD) && 1 <= k < |WORD|
    ensures !OccursAt(buf + WORD[..k], WORD, i)
  {
    var x := buf + WORD[..k];
    if 0 <= i && i + |WORD| <= |x| {
      if i + |WORD| <= |buf| {
        NotInPrefix(buf, WORD[..k], WORD, i);
      } else {
        var e := i + |WORD| - 1;
        assert x[e] == WORD[e - |buf|];
        if e - |buf| == 2 {
          assert x[|buf|] == 'a';
          LetterDiffers(x, WORD, i, 4);
        } else {
          LetterDiffers(x, WORD, i, |WORD| - 1);
        }
      }
    }
  }

  /** Typing "awesome" letter by letter, each letter in either case, on a buffer that has not
      heard it: once its first `k` letters are in, the next keypress hears nothing and leaves
      the last seven characters typed, except for the final "e", which is heard and clears the
      buffer. */
  lemma TypingAwesome(buf: string, k: nat, key: char)
    requires Unheard(buf) && k < |WORD| && Lower([key]) == [WORD[k]]
    ensures Keystroke(Remember(buf + WORD[..k]), [key])
            == if k + 1 < |WORD| then (Remember(buf + WORD[..k + 1]), false) else ([], true)
  {
    TypedNext(buf, WORD, k, key);
    var x := buf + WORD[..k + 1];
    if k + 1 < |WORD| {
      NoEarlyFire(buf, k + 1);
    } else {
      assert x[|x| - |WORD|..] == WORD;
      EndsWithIncludes(x, WORD);
    }
  }

  /** Typing the letters of "awesome", the handler hears nothing before the last one. */
  lemma NoEarlyFire(buf: string, k: nat)
    requires Unheard(buf) && 1 <= k < |WORD|
    ensures !Includes(Remember(buf + WORD[..k]), WORD)
  {
    var x := buf + WORD[..k];
    forall i
      ensures !OccursAt(x, WORD, i)
    {
      NotYet(buf, k, i);
    }
    IncludesAt(x, WORD);
    IncludesWithin(x, |x| - |Remember(x)|, WORD);
  }

  // ---------------------------------------------------------------- the page script

  /** The state awesome.js keeps and the page colours it writes. The theme attribute it reads
      belongs to theme.js and comes in as a parameter. */
  class RainbowMode {
    /** The last characters typed, lowercased. */
    var keyBuffer: string
    var isAwesome: bool
    var hue: int
    /** The pending animation frame request; 0 stands for null (request ids are positive). */
    var animationFrame: nat
    /** The page's colours. */
    var look: Look

    /** What holds between events: the buffer has not heard the word, and the rainbow state is coherent. */
    ghost predicate Valid()
      reads this
    {
      Unheard(keyBuffer) && Rainbow()
    }

    /** The hue is an angle in [0, 360), and a stopped rainbow has no frame pending. */
    ghost predicate Rainbow()
      reads this
    {
      0 <= hue < 360 && (!isAwesome ==> animationFrame == 0)
    }

    constructor(look: Look)
      ensures Valid()
      ensures keyBuffer == [] && !isAwesome && hue == 0 && animationFrame == 0 && this.look == look
    {
      keyBuffer, isAwesome, hue, animationFrame, this.look := [], false, 0, 0, look;
    }

    /** The keypress handler: remember the key; on "awesome" toggle the rainbow and clear. */
    method Keypress(key: string, theme: Option<string>, prefersDark: bool, ticket: nat)
      requires Valid()
      modifies this
      ensures Valid()
      ensures keyBuffer == Keystroke(old(keyBuffer), key).0
      ensures Keystroke(old(keyBuffer), key).1 ==> Toggled(theme, prefersDark, ticket)
      ensures !Keystroke(old(keyBuffer), key).1 ==>
        isAwesome == old(isAwesome) && hue == old(hue) && look == old(look) && animationFrame == old(animationFrame)
    {
      var buffer := keyBuffer + Lower(key);
      if |buffer| > BUFFER_LEN {
        buffer := buffer[|buffer| - BUFFER_LEN..];
      }
      assert buffer == Remember(keyBuffer + Lower(key));
      var heard := Includes(buffer, WORD);
      assert Keystroke(keyBuffer, key) == (if heard then [] else buffer, heard);
      if heard {
        ToggleAwesome(theme, prefersDark, ticket);
        buffer := [];
      }
      keyBuffer := buffer;
    }

    /** restoreColors: clear the inline colours of the body and of every button, and reset the
        constellation palette to ORIGINAL_COLORS when the page has one. */
    method RestoreColors()
      modifies this`look
      ensures look == ResetAsWritten(old(look))
    {
      var buttons := look.buttons;
      for i := 0 to |buttons|
        invariant |buttons| == |look.buttons|
        invariant forall k | 0 <= k < i :: buttons[k] == CLEARED
      {
        buttons := buttons[i := CLEARED];
      }
      var palette := if look.palette.Some? then Some(ORIGINAL_COLORS) else None;
      look := Look(UNSET, buttons, palette);
    }

    /** updateColors: repaint the page in the current hue, in the tones of the current scheme. */
    method UpdateColors(theme: Option<string>, prefersDark: bool)
      modifies this`look
      ensures look == Repaint(old(look), hue, IsDarkMode(theme, prefersDark))
    {
      var t := TonesFor(IsDarkMode(theme, prefersDark));
      var background := Tint(hue, t.background);
      var buttons := look.buttons;
      for i := 0 to |buttons|
        invariant |buttons| == |look.buttons|
        invariant forall k | 0 <= k < i :: buttons[k] == PaintedButton(hue, t)
      {
        buttons := buttons[i := PaintedButton(hue, t)];
      }
      var palette := if look.palette.Some? then Some(PaintedPalette(hue, t)) else None;
      look := Look(background, buttons, palette);
    }

    /** animate: a stopped rainbow does nothing; a running one moves one degree round the
        colour wheel, repaints, and asks for the next frame (the host's id is `ticket`). */
    method Animate(theme: Option<string>, prefersDark: bool, ticket: nat)
      requires Rainbow()
      modifies this`hue, this`look, this`animationFrame
      ensures Rainbow()
      ensures !isAwesome ==> hue == old(hue) && look == old(look) && animationFrame == old(animationFrame)
      ensures isAwesome ==> hue == (old(hue) + 1) % 360 && animationFrame == ticket
      ensures isAwesome ==> look == Repaint(old(look), hue, IsDarkMode(theme, prefersDark))
    {
      if !isAwesome {
        return;
      }
      hue := (hue + 1) % 360;
      UpdateColors(theme, prefersDark);
      animationFrame := ticket;
    }

    /** What toggleAwesome does: the flag flips; starting moves the hue one degree, repaints and
        records the frame request; stopping cancels the pending frame and resets the colours. */
    twostate predicate Toggled(theme: Option<string>, prefersDark: bool, ticket: nat)
      reads this
    {
      && isAwesome == !old(isAwesome)
      && (isAwesome ==>
            hue == (old(hue) + 1) % 360 && animationFrame == ticket
            && look == Repaint(old(look), hue, IsDarkMode(theme, prefersDark)))
      && (!isAwesome ==> hue == old(hue) && animationFrame == 0 && look == ResetAsWritten(old(look)))
    }

    /** toggleAwesome: starting animates; stopping cancels the pending frame and resets the colours. */
    method ToggleAwesome(theme: Option<string>, prefersDark: bool, ticket: nat)
      requires Rainbow()
      modifies this`isAwesome, this`hue, this`look, this`animationFrame
      ensures Rainbow() && Toggled(theme, prefersDark, ticket)
    {
      isAwesome := !isAwesome;
      if isAwesome {
        Animate(theme, prefersDark, ticket);
      } else {
        if animationFrame != 0 {
          animationFrame := 0;
        }
        RestoreColors();
      }
    }
  }
}
