/** The launcher's event handlers: keys, clicks on app buttons, and the
    decisions taken when the window opens and closes. Each handler is
    modelled by the actions it takes, in order; the toolkit carries them out. */
module Events {
  import opened Text
  import opened Widgets

  datatype Key = Escape | Return | KpEnter | OtherKey(code: nat)

  /** Whether the key event goes on to other handlers. */
  datatype Propagation = Proceed | Stop

  /** The actions a handler asks the toolkit to perform. */
  datatype Action =
    | RunExitAnimations  // enter the closing path
    | UnselectAll
    | MarkSelected       // mark the clicked button as selected
    | CloseWindow
    | Launch(app: App)
    | AddExitClass       // start the slide-out
    | Wait(ms: nat)
    | FadeOut            // lower the opacity step by step down to 0
    | Quit

  /** A selected grid child: the app stored on its button, or `None` when the
      child holds no button carrying an app. */
  type Selection = Option<App>

  /** The key handler. Escape starts the exit path; Return and keypad Enter
      launch the app of the first selected child, if it carries one, after
      closing the window, and then quit. Every key event is passed on. */
  function OnKeyPressed(key: Key, selected: seq<Selection>): (r: (seq<Action>, Propagation))
    ensures r.1 == Proceed
    ensures key == Escape ==> r.0 == [RunExitAnimations]
    ensures (key == Return || key == KpEnter) && |selected| > 0 && selected[0].Some? ==>
      r.0 == [CloseWindow, Launch(selected[0].value), Quit]
    ensures forall a :: Launch(a) in r.0 ==>
      (key == Return || key == KpEnter) && |selected| > 0 && selected[0] == Some(a)
    ensures r.0 == [] <==>
      key != Escape && !((key == Return || key == KpEnter) && |selected| > 0 && selected[0].Some?)
  {
    if key == Escape then ([RunExitAnimations], Proceed)
    else if key == Return || key == KpEnter then
      if |selected| > 0 && selected[0].Some? then
        ([CloseWindow, Launch(selected[0].value), Quit], Proceed)
      else ([], Proceed)
    else ([], Proceed)
  }

  /** Clicking an app's button: clear the selection, mark the button, close
      the window, launch the app, quit. */
  function OnAppClicked(app: App): (r: seq<Action>)
    ensures |r| == 5 && r[0] == UnselectAll && r[|r| - 1] == Quit
    ensures r[1] == MarkSelected && r[2] == CloseWindow && r[3] == Launch(app)
    ensures forall i :: 0 <= i < |r| - 1 ==> r[i] != Quit
    ensures forall a :: Launch(a) in r ==> a == app
  {
    [UnselectAll, MarkSelected, CloseWindow, Launch(app), Quit]
  }

  /** The placeholder the stylesheet carries where the opening slide starts. */
  const Placeholder: string := "transform: translateY(1px);"

  /** The declaration that starts the slide `offset` pixels down. */
  function TranslateY(offset: int): string
  {
    "transform: translateY(" + IntToString(offset) + "px);"
  }

  /** Whether the animation mode normalised to `"true"`/`"false"`. */
  predicate IsToggle(s: string)
  {
    s == "true" || s == "false"
  }

  /** How the opening animation runs once the stylesheet is loaded. */
  datatype OpenStyle =
    | SlideAfterDelay  // opaque at once; slide class added after 20 ms
    | FadeIn           // slide class added at the first step of a fade-in
    | SlideNow         // slide class added at once; opaque at once

  /** What the opening path does: nothing, when the stylesheet has no
      placeholder, or load the stylesheet with the placeholder replaced. */
  datatype OpenPlan = NothingLoaded | Load(css: string, style: OpenStyle)

  /** The opening path. An animation mode other than `"true"`/`"false"` is
      taken as `"true"`. The `fullscreen` value is used as given. A floating
      window with the animation on slides up from its own height; a
      fullscreen one slides up `fadeOffset` pixels while fading in; every
      other combination, including the animation switched off, slides from
      the window height at once. Without the placeholder nothing is loaded. */
  method StartAnimations(css: string, fullscreen: string, startAnimation: string, height: int, fadeOffset: int)
    returns (plan: OpenPlan)
    ensures !Contains(css, Placeholder) ==> plan == NothingLoaded
    ensures Contains(css, Placeholder) ==> plan.Load?
    ensures plan.Load? && plan.style == FadeIn ==> plan.css == ReplaceAll(css, Placeholder, TranslateY(fadeOffset))
    ensures plan.Load? && plan.style != FadeIn ==> plan.css == ReplaceAll(css, Placeholder, TranslateY(height))
    ensures plan.Load? ==> (plan.style == SlideAfterDelay <==> fullscreen == "false" && startAnimation != "false")
    ensures plan.Load? ==> (plan.style == FadeIn <==> fullscreen == "true" && startAnimation != "false")
  {
    var mode := startAnimation;
    if !IsToggle(mode) {
      mode := "true";
    }
    plan := NothingLoaded;
    if fullscreen == "false" && mode == "true" {
      if Contains(css, Placeholder) {
        plan := Load(ReplaceAll(css, Placeholder, TranslateY(height)), SlideAfterDelay);
      }
    } else if fullscreen == "true" && mode == "true" {
      if Contains(css, Placeholder) {
        plan := Load(ReplaceAll(css, Placeholder, TranslateY(fadeOffset)), FadeIn);
      }
    } else {
      if Contains(css, Placeholder) {
        plan := Load(ReplaceAll(css, Placeholder, TranslateY(height)), SlideNow);
      }
    }
  }

  /** The closing path. Both the animation mode and `fullscreen` are read
      again from the configuration; an invalid value of either is taken as
      `"true"`. A floating window slides out and quits after 500 ms, a
      fullscreen one fades out and quits at the end of the fade, and with
      the animation off the launcher quits at once. */
  method ExitAnimations(exitAnimation: string, fullscreen: string) returns (steps: seq<Action>)
    ensures |steps| > 0 && steps[|steps| - 1] == Quit
    ensures forall i :: 0 <= i < |steps| - 1 ==> steps[i] != Quit
    ensures steps == [Quit] <==> exitAnimation == "false"
    ensures exitAnimation != "false" ==> steps[0] == AddExitClass
    ensures FadeOut in steps <==> exitAnimation != "false" && fullscreen != "false"
    ensures Wait(500) in steps <==> exitAnimation != "false" && fullscreen == "false"
  {
    var mode := exitAnimation;
    var fs := fullscreen;
    if !IsToggle(mode) {
      mode := "true";
    }
    if !IsToggle(fs) {
      fs := "true";
    }
    if fs == "false" && mode == "true" {
      steps := [AddExitClass, Wait(500), Quit];
    } else if fs == "true" && mode == "true" {
      steps := [AddExitClass, FadeOut, Quit];
    } else {
      steps := [Quit];
    }
  }
}
