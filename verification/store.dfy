/** The viewer's state store: one message kind, `WindowResized`, that
    records the canvas dimensions. The Rust code mutates in place through
    `&mut self`; here every handler returns the new value. */
module ViewerStore {

  newtype u32 = x: int | 0 <= x < 0x1_0000_0000

  datatype Dimensions = Dimensions(width: u32, height: u32)

  datatype Msg = WindowResized(dimensions: Dimensions)

  datatype State = State(canvasDimensions: Dimensions)

  /** The newtype around `State` whose `Deref` exposes the state read-only */
  datatype StateWrapper = StateWrapper(inner: State)

  datatype Store = Store(state: StateWrapper)

  /** `State::new`: the canvas starts at 0 by 0. */
  function NewState(): (s: State)
    ensures s.canvasDimensions.width == 0 && s.canvasDimensions.height == 0
  {
    State(Dimensions(0, 0))
  }

  /** `State::msg`: a resize overwrites both dimensions with the message's. */
  function StateMsg(s: State, m: Msg): (s': State)
    ensures s'.canvasDimensions.width == m.dimensions.width
    ensures s'.canvasDimensions.height == m.dimensions.height
  {
    match m
    case WindowResized(d) =>
      s.(canvasDimensions := s.canvasDimensions.(width := d.width, height := d.height))
  }

  /** `Deref for StateWrapper`: the wrapped state, which wrapping again
      gives back the same wrapper */
  function Deref(w: StateWrapper): (s: State)
    ensures StateWrapper(s) == w
  {
    w.inner
  }

  /** `StateWrapper::msg` forwards to the wrapped state. */
  function WrapperMsg(w: StateWrapper, m: Msg): (w': StateWrapper)
    ensures Deref(w') == StateMsg(Deref(w), m)
  {
    StateWrapper(StateMsg(w.inner, m))
  }

  /** `Store::new` */
  function NewStore(): (st: Store)
    ensures Deref(st.state).canvasDimensions == Dimensions(0, 0)
  {
    Store(StateWrapper(NewState()))
  }

  /** `Store::msg` forwards every message to the wrapper. */
  function StoreMsg(st: Store, m: Msg): (st': Store)
    ensures Deref(st'.state) == StateMsg(Deref(st.state), m)
  {
    match m
    case _ => Store(WrapperMsg(st.state, m))
  }

  /** The store after handling `msgs` in order */
  function Run(st: Store, msgs: seq<Msg>): Store
    decreases |msgs|
  {
    if |msgs| == 0 then st else Run(StoreMsg(st, msgs[0]), msgs[1..])
  }

  /** After any run of resizes the canvas has the last resize's dimensions,
      and keeps the old ones when there was none. */
  lemma {:induction false} RunKeepsLastResize(st: Store, msgs: seq<Msg>)
    ensures Deref(Run(st, msgs).state).canvasDimensions ==
      if |msgs| == 0 then Deref(st.state).canvasDimensions else msgs[|msgs| - 1].dimensions
    decreases |msgs|
  {
    if |msgs| > 0 {
      RunKeepsLastResize(StoreMsg(st, msgs[0]), msgs[1..]);
    }
  }

  /** From a fresh store, a run ends at the last resize, or at 0 by 0. */
  lemma FreshRun(msgs: seq<Msg>)
    ensures Deref(Run(NewStore(), msgs).state).canvasDimensions ==
      if |msgs| == 0 then Dimensions(0, 0) else msgs[|msgs| - 1].dimensions
  {
    RunKeepsLastResize(NewStore(), msgs);
  }

  /** The state is a function of the last message only: two stores that
      handle the same non-empty run end equal. */
  lemma {:induction false} RunForgetsStart(st1: Store, st2: Store, msgs: seq<Msg>)
    requires |msgs| > 0
    ensures Run(st1, msgs) == Run(st2, msgs)
  {
    RunKeepsLastResize(st1, msgs);
    RunKeepsLastResize(st2, msgs);
  }

  /** Handling the same resize twice is the same as handling it once. */
  lemma ResizeIdempotent(st: Store, m: Msg)
    ensures StoreMsg(StoreMsg(st, m), m) == StoreMsg(st, m)
  {
  }
}
