/** Assembling the launcher's stylesheet: the colour settings override
    declarations in the built-in stylesheets, and the pieces are joined with
    the theme stylesheet first and the user's own stylesheet last. */
module Theme {
  import opened Text

  predicate IsHexDigit(c: char)
  {
    '0' <= c <= '9' || 'a' <= c <= 'f' || 'A' <= c <= 'F'
  }

  function AllHexDigits(s: string): bool
    decreases |s|
  {
    s == [] || (IsHexDigit(s[0]) && AllHexDigits(s[1..]))
  }

  lemma {:induction false} AllHexDigitsIff(s: string)
    ensures AllHexDigits(s) <==> forall i :: 0 <= i < |s| ==> IsHexDigit(s[i])
    decreases |s|
  {
    if s != [] {
      AllHexDigitsIff(s[1..]);
      assert forall i :: 1 <= i < |s| ==> s[i] == s[1..][i - 1];
    }
  }

  /** The pattern `^#[0-9a-fA-F]{6}$`: a colour is valid exactly when it is
      seven characters, a `#` followed by six hex digits. */
  function IsValidHexColor(color: string): (valid: bool)
    ensures valid <==>
      |color| == 7 && color[0] == '#' && forall i :: 1 <= i < 7 ==> IsHexDigit(color[i])
  {
    if |color| != 7 then false
    else
      AllHexDigitsIff(color[1..]);
      assert forall i :: 1 <= i < 7 ==> color[i] == color[1..][i - 1];
      color[0] == '#' && AllHexDigits(color[1..])
  }

  /** Where the line containing position `i` ends: the first line break at or
      after `i`, or the end of `s`. */
  function LineEnd(s: string, i: nat): (k: nat)
    requires i <= |s|
    ensures i <= k <= |s|
    ensures k < |s| ==> s[k] == '\n'
    ensures forall j :: i <= j < k ==> s[j] != '\n'
    decreases |s| - i
  {
    if i == |s| || s[i] == '\n' then i else LineEnd(s, i + 1)
  }

  /** Replaces the first match of the pattern `key.*`, that is the first
      occurrence of `key` through the end of its line, by `replacement`; without
      an occurrence, `s` is returned as it is. */
  function ReplaceLine(s: string, key: string, replacement: string): string
  {
    match Find(s, key)
    case None => s
    case Some(i) => s[..i] + replacement + s[LineEnd(s, i + |key|)..]
  }

  /** The three parts of a concatenation can be sliced back out of it. */
  lemma ConcatParts(a: string, b: string, c: string)
    ensures (a + b + c)[..|a|] == a
    ensures (a + b + c)[|a|..|a| + |b|] == b
    ensures (a + b + c)[|a| + |b|..] == c
  {
    var t := a + b + c;
    assert forall m :: 0 <= m < |b| ==> t[|a|..|a| + |b|][m] == b[m];
  }

  /** After the replacement, the replacement sits where the first occurrence
      of `key` started, the text before it is untouched and so is everything
      from the end of its line on. */
  lemma ReplaceLineShape(s: string, key: string, replacement: string, i: nat)
    requires Find(s, key) == Some(i)
    ensures i + |key| <= |s|
    ensures var e := LineEnd(s, i + |key|);
      var t := ReplaceLine(s, key, replacement);
      && OccursAt(t, replacement, i)
      && t[..i] == s[..i]
      && t[i + |replacement|..] == s[e..]
  {
    var e := LineEnd(s, i + |key|);
    var t := s[..i] + replacement + s[e..];
    assert ReplaceLine(s, key, replacement) == t;
    assert OccursAt(t, replacement, i) && t[..i] == s[..i] && t[i + |replacement|..] == s[e..] by {
      ConcatParts(s[..i], replacement, s[e..]);
    }
  }

  /** Without an occurrence of `key` there is nothing to match, and the text
      is returned as it is. */
  lemma ReplaceLineAbsent(s: string, key: string, replacement: string)
    requires !Contains(s, key)
    ensures ReplaceLine(s, key, replacement) == s
  {
  }

  const BackgroundKey: string := "background: "
  const AccentKey: string := "--accent-color: "
  const SelectKey: string := "--select-color: "

  /** Whether a colour setting takes effect: it is not `"default"` and it is a
      valid colour. */
  predicate Applies(color: string)
  {
    color != "default" && IsValidHexColor(color)
  }

  /** The stylesheet with the `key` line set to `color`, when it applies. */
  function Override(css: string, key: string, color: string): string
  {
    if Applies(color) then ReplaceLine(css, key, key + color + ";") else css
  }

  /** A theme stylesheet with the accent and then the select colour applied. */
  function ThemeCss(theme: string, accent: string, select: string): string
  {
    Override(Override(theme, AccentKey, accent), SelectKey, select)
  }

  /** The stylesheet after the theme: the base, then the background
      override when it applies, then the user's stylesheet when there is one. */
  function BodyCss(base: string, back: string, background: string, userCss: Option<string>): string
  {
    base
    + (if Applies(background) then "\n" + ReplaceLine(back, BackgroundKey, BackgroundKey + background + ";") else "")
    + (if userCss.Some? then "\n" + userCss.value else "")
  }

  /** One colour setting applied to both theme stylesheets: when it is not
      `"default"` and is a valid colour, the `key` line of each is replaced by
      the declaration of that colour; otherwise both stay as they are. */
  method OverrideThemes(dark: string, light: string, key: string, color: string)
    returns (newDark: string, newLight: string)
    ensures newDark == Override(dark, key, color) && newLight == Override(light, key, color)
    ensures !Applies(color) ==> newDark == dark && newLight == light
  {
    newDark, newLight := dark, light;
    if color != "default" {
      if IsValidHexColor(color) {
        var to := key + color + ";";
        newDark := ReplaceLine(dark, key, to);
        newLight := ReplaceLine(light, key, to);
      }
    }
  }

  /** Builds the stylesheet step by step: the background override is appended
      to the base, the accent and select overrides are applied to both the dark
      and the light theme, the user's stylesheet is appended, and the theme in
      use is put in front. */
  method AssembleCss(base: string, back: string, dark: string, light: string,
                     background: string, accent: string, select: string,
                     userCss: Option<string>, darkTheme: bool)
    returns (css: string)
    ensures css == (if darkTheme then ThemeCss(dark, accent, select) else ThemeCss(light, accent, select))
                   + "\n" + BodyCss(base, back, background, userCss)
  {
    css := base;
    var cssDark := dark;
    var cssLight := light;
    if background != "default" {
      if IsValidHexColor(background) {
        var newContents := ReplaceLine(back, BackgroundKey, BackgroundKey + background + ";");
        css := css + "\n" + newContents;
      }
    }
    assert css == base + (if Applies(background) then "\n" + ReplaceLine(back, BackgroundKey, BackgroundKey + background + ";") else "");
    cssDark, cssLight := OverrideThemes(cssDark, cssLight, AccentKey, accent);
    cssDark, cssLight := OverrideThemes(cssDark, cssLight, SelectKey, select);
    if userCss.Some? {
      css := css + "\n" + userCss.value;
    }
    assert css == BodyCss(base, back, background, userCss);
    if darkTheme {
      css := cssDark + "\n" + css;
    } else {
      css := cssLight + "\n" + css;
    }
  }

  /** Colour settings that do not apply leave the stylesheets as built in. */
  lemma UnusableColorsKeepBuiltIns(theme: string, base: string, back: string,
                                   accent: string, select: string, background: string)
    requires !Applies(accent) && !Applies(select) && !Applies(background)
    ensures ThemeCss(theme, accent, select) == theme
    ensures BodyCss(base, back, background, None) == base
  {
  }

  /** The user's stylesheet comes last, so its rules take precedence, and the
      base stylesheet directly follows the theme. */
  lemma AssembledLayout(theme: string, base: string, back: string, background: string, user: string)
    ensures var css := theme + "\n" + BodyCss(base, back, background, Some(user));
      && css[..|theme| + 1 + |base|] == theme + "\n" + base
      && css[|css| - |user| - 1..] == "\n" + user
  {
  }
}
