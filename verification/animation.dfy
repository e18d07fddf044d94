/**
  Sprite animation: a list of frames played one after another, each shown for `frameTime`
  seconds, either looping or once; and a sprite that holds named animations and plays one
  of them. The frame type is a parameter (a texture rectangle in the program).
 */
module Animation {
  import opened Outcomes

  /** The largest `size_t`: `frames.size() - 1` on an empty list wraps to it. */
  const SizeMax: nat := 0xFFFF_FFFF_FFFF_FFFF

  datatype Animation<F> = Animation(
    frames: seq<F>,
    currentFrame: nat,
    totalTime: real,
    frameTime: real,
    isPlaying: bool,
    isLooped: bool)

  /** The current frame is a frame of the list, or 0 while the list is empty. */
  predicate Valid<F>(a: Animation<F>) {
    a.currentFrame == 0 || a.currentFrame < |a.frames|
  }

  /** The constructed animation: no frames, frame 0, no time, 0.1 s per frame, stopped, looping. */
  function New<F>(): (a: Animation<F>)
    ensures Valid(a) && a.frames == [] && a.currentFrame == 0 && a.totalTime == 0.0
    ensures a.frameTime == 0.1 && !a.isPlaying && a.isLooped
  {
    Animation([], 0, 0.0, 0.1, false, true)
  }

  function AddFrame<F>(a: Animation<F>, f: F): (r: Animation<F>)
    ensures r.frames == a.frames + [f] && r.currentFrame == a.currentFrame
    ensures r.totalTime == a.totalTime && r.isPlaying == a.isPlaying && r.frameTime == a.frameTime && r.isLooped == a.isLooped
    ensures Valid(a) ==> Valid(r)
  {
    a.(frames := a.frames + [f])
  }

  /** `setFrameTime`: only the duration of a frame changes. */
  function SetFrameTime<F>(a: Animation<F>, t: real): (r: Animation<F>)
    ensures Valid(a) ==> Valid(r)
    ensures r.frameTime == t && r.frames == a.frames && r.currentFrame == a.currentFrame
    ensures r.totalTime == a.totalTime && r.isPlaying == a.isPlaying && r.isLooped == a.isLooped
  {
    a.(frameTime := t)
  }

  /** `setLoop`: only whether the animation starts over after its last frame changes. */
  function SetLoop<F>(a: Animation<F>, loop: bool): (r: Animation<F>)
    ensures Valid(a) ==> Valid(r)
    ensures r.isLooped == loop && r.frames == a.frames && r.currentFrame == a.currentFrame
    ensures r.totalTime == a.totalTime && r.isPlaying == a.isPlaying && r.frameTime == a.frameTime
  {
    a.(isLooped := loop)
  }

  /** `play`: set playing from wherever the animation stands. */
  function Play<F>(a: Animation<F>): (r: Animation<F>)
    ensures r.isPlaying && r.currentFrame == a.currentFrame && r.totalTime == a.totalTime
    ensures r.frames == a.frames && r.frameTime == a.frameTime && r.isLooped == a.isLooped
    ensures Valid(a) ==> Valid(r)
  {
    a.(isPlaying := true)
  }

  /** `stop`: not playing, back to the first frame with no time accumulated. */
  function Stop<F>(a: Animation<F>): (r: Animation<F>)
    ensures Valid(r) && !r.isPlaying && r.currentFrame == 0 && r.totalTime == 0.0
    ensures r.frames == a.frames && r.frameTime == a.frameTime && r.isLooped == a.isLooped
  {
    a.(isPlaying := false, currentFrame := 0, totalTime := 0.0)
  }

  /** `pause`: not playing, keeping the frame and the time. */
  function Pause<F>(a: Animation<F>): (r: Animation<F>)
    ensures !r.isPlaying && r.currentFrame == a.currentFrame && r.totalTime == a.totalTime
    ensures Valid(a) ==> Valid(r)
  {
    a.(isPlaying := false)
  }

  /**
    `update`: while playing, the elapsed time is accumulated and, once it reaches one frame's
    duration, that duration is taken off and the next frame is shown. Past the last frame a
    looping animation starts over; a one-shot animation is set to its last frame and then
    stopped, which puts it back on frame 0.
   */
  function Update<F>(a: Animation<F>, dt: real): (r: Animation<F>)
    ensures Valid(a) ==> Valid(r)
    ensures r.frames == a.frames && r.frameTime == a.frameTime && r.isLooped == a.isLooped
    ensures !a.isPlaying ==> r == a
    ensures a.isPlaying && a.totalTime + dt < a.frameTime ==> r == a.(totalTime := a.totalTime + dt)
    ensures a.isPlaying && a.totalTime + dt >= a.frameTime && a.currentFrame + 1 < |a.frames| ==>
      r == a.(currentFrame := a.currentFrame + 1, totalTime := a.totalTime + dt - a.frameTime)
  {
    if !a.isPlaying then a
    else
      var t := a.totalTime + dt;
      if t < a.frameTime then a.(totalTime := t)
      else
        var t2 := t - a.frameTime;
        if a.currentFrame + 1 < |a.frames| then a.(totalTime := t2, currentFrame := a.currentFrame + 1)
        else if a.isLooped then a.(totalTime := t2, currentFrame := 0)
        else
          var last := if |a.frames| == 0 then SizeMax else |a.frames| - 1;
          Stop(a.(totalTime := t2, currentFrame := last))
  }

  /** `getCurrentFrame`: the frame on show. */
  function GetCurrentFrame<F>(a: Animation<F>): (f: F)
    requires Valid(a) && |a.frames| > 0
    ensures f in a.frames
    ensures f == a.frames[a.currentFrame]
  {
    a.frames[a.currentFrame]
  }

  /**
    One update moves at most one frame: the frame stays, goes to the next one, or goes back
    to the first; it moves only once a whole frame's time has gathered, and then exactly one
    frame's time is consumed (or all of it, when a one-shot animation stops).
   */
  lemma UpdateStep<F>(a: Animation<F>, dt: real)
    requires a.isPlaying
    ensures var r := Update(a, dt);
      && (r.currentFrame == a.currentFrame || r.currentFrame == a.currentFrame + 1 || r.currentFrame == 0)
      && (a.totalTime + dt < a.frameTime ==> r.currentFrame == a.currentFrame && r.totalTime == a.totalTime + dt)
      && (a.totalTime + dt >= a.frameTime ==>
            (r.isPlaying && r.totalTime == a.totalTime + dt - a.frameTime) || (!r.isPlaying && r.totalTime == 0.0))
  {
  }

  /** A looping animation on its last frame goes back to the first and keeps playing. */
  lemma LoopWraps<F>(a: Animation<F>, dt: real)
    requires a.isPlaying && a.isLooped && |a.frames| > 0 && a.currentFrame == |a.frames| - 1
    requires a.totalTime + dt >= a.frameTime
    ensures Update(a, dt).currentFrame == 0 && Update(a, dt).isPlaying
  {
  }

  /** A one-shot animation on its last frame ends stopped on frame 0 rather than on its last frame. */
  lemma OneShotEndsOnFirstFrame<F>(a: Animation<F>, dt: real)
    requires a.isPlaying && !a.isLooped && |a.frames| > 0 && a.currentFrame == |a.frames| - 1
    requires a.totalTime + dt >= a.frameTime
    ensures Update(a, dt) == Stop(a)
  {
  }

  /** Pausing and playing again resumes where the animation was; stopping and playing restarts it. */
  lemma PauseResumes<F>(a: Animation<F>)
    ensures Play(Pause(a)) == Play(a)
    ensures Play(Stop(a)).currentFrame == 0 && Play(Stop(a)).totalTime == 0.0
  {
  }

  /** A paused or stopped animation ignores time. */
  lemma IdleIgnoresTime<F>(a: Animation<F>, dt: real)
    ensures Update(Pause(a), dt) == Pause(a) && Update(Stop(a), dt) == Stop(a)
  {
  }

  /* ---------- animated sprite ---------- */

  /**
    A sprite with named animations. `selected` stands for the sprite's `animation` member being
    non-null; it then refers to the animation stored under `current`. `shown` is the texture rectangle
    last set from an animation.
   */
  datatype Sprite<F> = Sprite(animations: map<string, Animation<F>>, selected: bool, current: string, shown: Option<F>)

  /** Only a stored animation can be selected, and every stored animation is valid. */
  predicate SpriteValid<F>(s: Sprite<F>) {
    && (s.selected ==> s.current in s.animations)
    && forall n :: n in s.animations ==> Valid(s.animations[n])
  }

  /** The constructed sprite: nothing stored, nothing selected, current name "". */
  function NewSprite<F>(): (s: Sprite<F>)
    ensures SpriteValid(s) && !s.selected && s.current == "" && s.animations == map[]
  {
    Sprite(map[], false, "", None)
  }

  /** `addAnimation`: stores (or replaces) the animation under `name`. */
  function AddAnimation<F>(s: Sprite<F>, name: string, a: Animation<F>): (r: Sprite<F>)
    requires Valid(a)
    ensures SpriteValid(s) ==> SpriteValid(r)
    ensures name in r.animations && r.animations[name] == a
    ensures forall n :: n in s.animations && n != name ==> n in r.animations && r.animations[n] == s.animations[n]
    ensures r.animations.Keys == s.animations.Keys + {name}
    ensures r.selected == s.selected && r.current == s.current && r.shown == s.shown
  {
    s.(animations := s.animations[name := a])
  }

  /** Selecting `name` shows a frame of it, so that animation must have frames. */
  predicate CanShow<F>(s: Sprite<F>, name: string) {
    name in s.animations ==> |s.animations[name].frames| > 0
  }

  /**
    `play(name)`: when `name` is not the current name and is stored, it becomes the current
    animation, is set playing (from wherever it was) and its current frame is shown; in every
    other case nothing changes.
   */
  function PlayNamed<F>(s: Sprite<F>, name: string): (r: Sprite<F>)
    requires SpriteValid(s) && (name != s.current ==> CanShow(s, name))
    ensures SpriteValid(r)
    ensures (name == s.current || name !in s.animations) ==> r == s
    ensures name != s.current && name in s.animations ==>
      && r.selected && r.current == name
      && r.animations == s.animations[name := Play(s.animations[name])]
      && r.shown == Some(GetCurrentFrame(s.animations[name]))
  {
    if s.current != name && name in s.animations then
      var a := Play(s.animations[name]);
      Sprite(s.animations[name := a], true, name, Some(GetCurrentFrame(a)))
    else s
  }

  /** `isPlaying`: an animation is selected and it is playing. */
  function IsPlaying<F>(s: Sprite<F>): bool
    requires SpriteValid(s)
  {
    s.selected && s.animations[s.current].isPlaying
  }

  /** `update`: the selected animation, if playing, advances and its frame is shown. */
  function UpdateSprite<F>(s: Sprite<F>, dt: real): (r: Sprite<F>)
    requires SpriteValid(s) && (s.selected ==> |s.animations[s.current].frames| > 0)
    ensures SpriteValid(r)
    ensures !IsPlaying(s) ==> r == s
    ensures r.selected == s.selected && r.current == s.current && r.animations.Keys == s.animations.Keys
    ensures IsPlaying(s) ==>
      && r.animations == s.animations[s.current := Update(s.animations[s.current], dt)]
      && r.shown == Some(GetCurrentFrame(r.animations[s.current]))
  {
    if IsPlaying(s) then
      var a := Update(s.animations[s.current], dt);
      s.(animations := s.animations[s.current := a], shown := Some(GetCurrentFrame(a)))
    else s
  }

  /** `stop`: the selected animation, if any, is stopped. */
  function StopSprite<F>(s: Sprite<F>): (r: Sprite<F>)
    requires SpriteValid(s)
    ensures SpriteValid(r) && !IsPlaying(r)
    ensures r.selected == s.selected && r.current == s.current
    ensures s.selected ==> r.animations == s.animations[s.current := Stop(s.animations[s.current])] && r.shown == s.shown
    ensures !s.selected ==> r == s
  {
    if s.selected then s.(animations := s.animations[s.current := Stop(s.animations[s.current])]) else s
  }

  /** Playing the same name twice is playing it once. */
  lemma PlayIdempotent<F>(s: Sprite<F>, name: string)
    requires SpriteValid(s) && (name != s.current ==> CanShow(s, name))
    ensures PlayNamed(PlayNamed(s, name), name) == PlayNamed(s, name)
  {
  }

  /** After a successful `play`, the sprite is playing the requested animation. */
  lemma PlaySelects<F>(s: Sprite<F>, name: string)
    requires SpriteValid(s) && name != s.current && name in s.animations && CanShow(s, name)
    ensures IsPlaying(PlayNamed(s, name)) && PlayNamed(s, name).current == name
  {
  }

  /** Playing the current name again does not restart it: a stopped current animation stays stopped. */
  lemma ReplayAfterStop<F>(s: Sprite<F>)
    requires SpriteValid(s) && s.selected
    ensures !IsPlaying(PlayNamed(StopSprite(s), s.current))
  {
  }

  /**
    Playing the current name does nothing; in particular `play("")` is ignored by a sprite
    whose current name is still the initial "", so a fresh sprite cannot play an animation
    stored under "".
   */
  lemma EmptyNameIgnoredWhileCurrent<F>(s: Sprite<F>, a: Animation<F>)
    requires SpriteValid(s) && s.current == "" && Valid(a)
    ensures PlayNamed(s, "") == s
    ensures !IsPlaying(PlayNamed(AddAnimation(NewSprite<F>(), "", a), ""))
  {
  }

  /** Once another name has been played, "" is no longer current and `play("")` plays it. */
  lemma EmptyNamePlaysAfterOther<F>(a: Animation<F>, b: Animation<F>)
    requires Valid(a) && Valid(b) && |a.frames| > 0 && |b.frames| > 0
    ensures var s := PlayNamed(AddAnimation(AddAnimation(NewSprite<F>(), "", a), "x", b), "x");
      s.current == "x" && IsPlaying(PlayNamed(s, "")) && PlayNamed(s, "").current == ""
  {
  }
}
