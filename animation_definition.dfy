// The string lookups of src/animation_definition.cpp: configuration names
// for the animated events, the easing functions and the animation types.
// Each unknown name gives the enum's `max` value.
module AnimationDefinitions {

  datatype AnimateableEvent = WindowOpen | WindowMove | WindowClose | EventMax

  /** `from_string_animateable_event`. */
  function EventFromString(s: string): AnimateableEvent
  {
    if s == "window_open" then WindowOpen
    else if s == "window_move" then WindowMove
    else if s == "window_close" then WindowClose
    else EventMax
  }

  /** The configuration name of each event. */
  function EventName(e: AnimateableEvent): string
    requires !e.EventMax?
  {
    match e
    case WindowOpen => "window_open"
    case WindowMove => "window_move"
    case WindowClose => "window_close"
  }

  /** Each event's name is looked up as that event, and a name that is looked up as an event is exactly that event's name. */
  lemma EventNamesRoundTrip(e: AnimateableEvent, s: string)
    ensures !e.EventMax? ==> EventFromString(EventName(e)) == e
    ensures !EventFromString(s).EventMax? ==> EventName(EventFromString(s)) == s
  {
  }
  datatype EaseFunction =
    | Linear
    | EaseInSine
    | EaseOutSine
    | EaseInOutSine
    | EaseInQuad
    | EaseOutQuad
    | EaseInOutQuad
    | EaseInCubic
    | EaseOutCubic
    | EaseInOutCubic
    | EaseInQuart
    | EaseOutQuart
    | EaseInOutQuart
    | EaseInQuint
    | EaseOutQuint
    | EaseInOutQuint
    | EaseInExpo
    | EaseOutExpo
    | EaseInOutExpo
    | EaseInCirc
    | EaseOutCirc
    | EaseInOutCirc
    | EaseInBack
    | EaseOutBack
    | EaseInOutBack
    | EaseInElastic
    | EaseOutElastic
    | EaseInOutElastic
    | EaseInBounce
    | EaseOutBounce
    | EaseInOutBounce
    | EaseMax
  /**
   * `from_string_ease_function`: the 31 names compared exactly, in the
   * source's order. The chain is cut after `linear` and after each family of
   * three names, one function per family, so that each piece is checked on
   * its own.
   */
  function EaseFromString(s: string): (r: EaseFunction)
    ensures !r.EaseMax? ==> EaseName(r) == s
  {
    if s == "linear" then Linear else EaseSine(s)
  }

  function EaseSine(s: string): (r: EaseFunction)
    ensures !r.EaseMax? ==> EaseName(r) == s
  {
    if s == "ease_in_sine" then EaseInSine
    else if s == "ease_out_sine" then EaseOutSine
    else if s == "ease_in_out_sine" then EaseInOutSine
    else EaseQuad(s)
  }

  function EaseQuad(s: string): (r: EaseFunction)
    ensures !r.EaseMax? ==> EaseName(r) == s
  {
    if s == "ease_in_quad" then EaseInQuad
    else if s == "ease_out_quad" then EaseOutQuad
    else if s == "ease_in_out_quad" then EaseInOutQuad
    else EaseCubic(s)
  }

  function EaseCubic(s: string): (r: EaseFunction)
    ensures !r.EaseMax? ==> EaseName(r) == s
  {
    if s == "ease_in_cubic" then EaseInCubic
    else if s == "ease_out_cubic" then EaseOutCubic
    else if s == "ease_in_out_cubic" then EaseInOutCubic
    else EaseQuart(s)
  }

  function EaseQuart(s: string): (r: EaseFunction)
    ensures !r.EaseMax? ==> EaseName(r) == s
  {
    if s == "ease_in_quart" then EaseInQuart
    else if s == "ease_out_quart" then EaseOutQuart
    else if s == "ease_in_out_quart" then EaseInOutQuart
    else EaseQuint(s)
  }

  function EaseQuint(s: string): (r: EaseFunction)
    ensures !r.EaseMax? ==> EaseName(r) == s
  {
    if s == "ease_in_quint" then EaseInQuint
    else if s == "ease_out_quint" then EaseOutQuint
    else if s == "ease_in_out_quint" then EaseInOutQuint
    else EaseExpo(s)
  }

  function EaseExpo(s: string): (r: EaseFunction)
    ensures !r.EaseMax? ==> EaseName(r) == s
  {
    if s == "ease_in_expo" then EaseInExpo
    else if s == "ease_out_expo" then EaseOutExpo
    else if s == "ease_in_out_expo" then EaseInOutExpo
    else EaseCirc(s)
  }

  function EaseCirc(s: string): (r: EaseFunction)
    ensures !r.EaseMax? ==> EaseName(r) == s
  {
    if s == "ease_in_circ" then EaseInCirc
    else if s == "ease_out_circ" then EaseOutCirc
    else if s == "ease_in_out_circ" then EaseInOutCirc
    else EaseBack(s)
  }

  function EaseBack(s: string): (r: EaseFunction)
    ensures !r.EaseMax? ==> EaseName(r) == s
  {
    if s == "ease_in_back" then EaseInBack
    else if s == "ease_out_back" then EaseOutBack
    else if s == "ease_in_out_back" then EaseInOutBack
    else EaseElastic(s)
  }

  function EaseElastic(s: string): (r: EaseFunction)
    ensures !r.EaseMax? ==> EaseName(r) == s
  {
    if s == "ease_in_elastic" then EaseInElastic
    else if s == "ease_out_elastic" then EaseOutElastic
    else if s == "ease_in_out_elastic" then EaseInOutElastic
    else EaseBounce(s)
  }

  function EaseBounce(s: string): (r: EaseFunction)
    ensures !r.EaseMax? ==> EaseName(r) == s
  {
    if s == "ease_in_bounce" then EaseInBounce
    else if s == "ease_out_bounce" then EaseOutBounce
    else if s == "ease_in_out_bounce" then EaseInOutBounce
    else EaseMax
  }

  /** The configuration name of each easing function. */
  function EaseName(e: EaseFunction): string
    requires !e.EaseMax?
  {
    match e
    case Linear => "linear"
    case EaseInSine => "ease_in_sine"
    case EaseOutSine => "ease_out_sine"
    case EaseInOutSine => "ease_in_out_sine"
    case EaseInQuad => "ease_in_quad"
    case EaseOutQuad => "ease_out_quad"
    case EaseInOutQuad => "ease_in_out_quad"
    case EaseInCubic => "ease_in_cubic"
    case EaseOutCubic => "ease_out_cubic"
    case EaseInOutCubic => "ease_in_out_cubic"
    case EaseInQuart => "ease_in_quart"
    case EaseOutQuart => "ease_out_quart"
    case EaseInOutQuart => "ease_in_out_quart"
    case EaseInQuint => "ease_in_quint"
    case EaseOutQuint => "ease_out_quint"
    case EaseInOutQuint => "ease_in_out_quint"
    case EaseInExpo => "ease_in_expo"
    case EaseOutExpo => "ease_out_expo"
    case EaseInOutExpo => "ease_in_out_expo"
    case EaseInCirc => "ease_in_circ"
    case EaseOutCirc => "ease_out_circ"
    case EaseInOutCirc => "ease_in_out_circ"
    case EaseInBack => "ease_in_back"
    case EaseOutBack => "ease_out_back"
    case EaseInOutBack => "ease_in_out_back"
    case EaseInElastic => "ease_in_elastic"
    case EaseOutElastic => "ease_out_elastic"
    case EaseInOutElastic => "ease_in_out_elastic"
    case EaseInBounce => "ease_in_bounce"
    case EaseOutBounce => "ease_out_bounce"
    case EaseInOutBounce => "ease_in_out_bounce"
  }

  /** Each easing function's name is looked up as that function; so distinct functions have distinct names. */
  lemma EaseNamesRoundTrip(e: EaseFunction)
    requires !e.EaseMax?
    ensures EaseFromString(EaseName(e)) == e
  {
    match e
    case Linear => LinearFound();
    case EaseInSine => EaseInSineFound();
    case EaseOutSine => EaseOutSineFound();
    case EaseInOutSine => EaseInOutSineFound();
    case EaseInQuad => EaseInQuadFound();
    case EaseOutQuad => EaseOutQuadFound();
    case EaseInOutQuad => EaseInOutQuadFound();
    case EaseInCubic => EaseInCubicFound();
    case EaseOutCubic => EaseOutCubicFound();
    case EaseInOutCubic => EaseInOutCubicFound();
    case EaseInQuart => EaseInQuartFound();
    case EaseOutQuart => EaseOutQuartFound();
    case EaseInOutQuart => EaseInOutQuartFound();
    case EaseInQuint => EaseInQuintFound();
    case EaseOutQuint => EaseOutQuintFound();
    case EaseInOutQuint => EaseInOutQuintFound();
    case EaseInExpo => EaseInExpoFound();
    case EaseOutExpo => EaseOutExpoFound();
    case EaseInOutExpo => EaseInOutExpoFound();
    case EaseInCirc => EaseInCircFound();
    case EaseOutCirc => EaseOutCircFound();
    case EaseInOutCirc => EaseInOutCircFound();
    case EaseInBack => EaseInBackFound();
    case EaseOutBack => EaseOutBackFound();
    case EaseInOutBack => EaseInOutBackFound();
    case EaseInElastic => EaseInElasticFound();
    case EaseOutElastic => EaseOutElasticFound();
    case EaseInOutElastic => EaseInOutElasticFound();
    case EaseInBounce => EaseInBounceFound();
    case EaseOutBounce => EaseOutBounceFound();
    case EaseInOutBounce => EaseInOutBounceFound();
  }

  lemma LinearFound()
    ensures EaseFromString("linear") == Linear
  {
  }

  lemma EaseInSineFound()
    ensures EaseFromString("ease_in_sine") == EaseInSine
  {
  }

  lemma EaseOutSineFound()
    ensures EaseFromString("ease_out_sine") == EaseOutSine
  {
  }

  lemma EaseInOutSineFound()
    ensures EaseFromString("ease_in_out_sine") == EaseInOutSine
  {
  }

  lemma EaseInQuadFound()
    ensures EaseFromString("ease_in_quad") == EaseInQuad
  {
  }

  lemma EaseOutQuadFound()
    ensures EaseFromString("ease_out_quad") == EaseOutQuad
  {
  }

  lemma EaseInOutQuadFound()
    ensures EaseFromString("ease_in_out_quad") == EaseInOutQuad
  {
  }

  lemma EaseInCubicFound()
    ensures EaseFromString("ease_in_cubic") == EaseInCubic
  {
  }

  lemma EaseOutCubicFound()
    ensures EaseFromString("ease_out_cubic") == EaseOutCubic
  {
  }

  lemma EaseInOutCubicFound()
    ensures EaseFromString("ease_in_out_cubic") == EaseInOutCubic
  {
  }

  lemma EaseInQuartFound()
    ensures EaseFromString("ease_in_quart") == EaseInQuart
  {
  }

  lemma EaseOutQuartFound()
    ensures EaseFromString("ease_out_quart") == EaseOutQuart
  {
  }

  lemma EaseInOutQuartFound()
    ensures EaseFromString("ease_in_out_quart") == EaseInOutQuart
  {
  }

  lemma EaseInQuintFound()
    ensures EaseFromString("ease_in_quint") == EaseInQuint
  {
  }

  lemma EaseOutQuintFound()
    ensures EaseFromString("ease_out_quint") == EaseOutQuint
  {
  }

  lemma EaseInOutQuintFound()
    ensures EaseFromString("ease_in_out_quint") == EaseInOutQuint
  {
  }

  lemma EaseInExpoFound()
    ensures EaseFromString("ease_in_expo") == EaseInExpo
  {
  }

  lemma EaseOutExpoFound()
    ensures EaseFromString("ease_out_expo") == EaseOutExpo
  {
  }

  lemma EaseInOutExpoFound()
    ensures EaseFromString("ease_in_out_expo") == EaseInOutExpo
  {
  }

  lemma EaseInCircFound()
    ensures EaseFromString("ease_in_circ") == EaseInCirc
  {
  }

  lemma EaseOutCircFound()
    ensures EaseFromString("ease_out_circ") == EaseOutCirc
  {
  }

  lemma EaseInOutCircFound()
    ensures EaseFromString("ease_in_out_circ") == EaseInOutCirc
  {
  }

  lemma EaseInBackFound()
    ensures EaseFromString("ease_in_back") == EaseInBack
  {
  }

  lemma EaseOutBackFound()
    ensures EaseFromString("ease_out_back") == EaseOutBack
  {
  }

  lemma EaseInOutBackFound()
    ensures EaseFromString("ease_in_out_back") == EaseInOutBack
  {
  }

  lemma EaseInElasticFound()
    ensures EaseFromString("ease_in_elastic") == EaseInElastic
  {
  }

  lemma EaseOutElasticFound()
    ensures EaseFromString("ease_out_elastic") == EaseOutElastic
  {
  }

  lemma EaseInOutElasticFound()
    ensures EaseFromString("ease_in_out_elastic") == EaseInOutElastic
  {
  }

  lemma EaseInBounceFound()
    ensures EaseFromString("ease_in_bounce") == EaseInBounce
  {
  }

  lemma EaseOutBounceFound()
    ensures EaseFromString("ease_out_bounce") == EaseOutBounce
  {
  }

  lemma EaseInOutBounceFound()
    ensures EaseFromString("ease_in_out_bounce") == EaseInOutBounce
  {
  }

  datatype AnimationType = Disabled | Slide | Grow | Shrink | TypeMax

  /** `from_string_animation_type`. */
  function TypeFromString(s: string): AnimationType
  {
    if s == "disabled" then Disabled
    else if s == "slide" then Slide
    else if s == "grow" then Grow
    else if s == "shrink" then Shrink
    else TypeMax
  }

  /** The configuration name of each animation type. */
  function TypeName(t: AnimationType): string
    requires !t.TypeMax?
  {
    match t
    case Disabled => "disabled"
    case Slide => "slide"
    case Grow => "grow"
    case Shrink => "shrink"
  }

  /** Each type's name is looked up as that type, and a name looked up as a type is exactly its name. */
  lemma TypeNamesRoundTrip(t: AnimationType, s: string)
    ensures !t.TypeMax? ==> TypeFromString(TypeName(t)) == t
    ensures !TypeFromString(s).TypeMax? ==> TypeName(TypeFromString(s)) == s
  {
  }

  /** Matching is exact: a name differing only in letter case is unknown. */
  lemma LookupIsCaseSensitive()
    ensures EventFromString("Window_Open") == EventMax
    ensures TypeFromString("Slide") == TypeMax
  {
  }

  /** The same for easing functions: "Linear" is no easing function. */
  lemma EaseLookupIsCaseSensitive()
    ensures EaseFromString("Linear") == EaseMax
  {
  }
}
