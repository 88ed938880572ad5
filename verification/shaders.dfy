/** The viewer's shader system: a table of linked programs with a cache of
    which one is active, and per-program memoised uniform lookups. The
    WebGL context is an oracle. Every operation that does not panic
    returns its `use_program` and `get_uniform_location` calls in an
    explicit call log, so that "no redundant call" can be stated. The Rust code mutates through `RefCell`; here each operation
    returns the updated value. */
module Shaders {
  import opened Wrappers

  /** An opaque `WebGlProgram` handle */
  type ProgramId = nat

  /** An opaque `WebGlUniformLocation` handle */
  type Location = nat

  /** The kinds of shader program the viewer knows */
  datatype ShaderKind = SolidWhite

  /** The WebGL calls the shader system makes */
  datatype GlCall =
    | UseProgram(program: ProgramId)
    | GetUniformLocation(program: ProgramId, name: string)

  /** The ways the code panics (`unwrap` and `expect` on a missing value) */
  datatype Panic =
    | ShaderBuildFailed(message: string)
    | ProgramMissing
    | UniformNotFound(name: string)

  /** `gl.get_uniform_location(program, name)`, as an oracle */
  type UniformOracle = (ProgramId, string) -> Option<Location>

  /** A linked program and its cache of uniform locations */
  datatype Shader = Shader(program: ProgramId, uniforms: map<string, Location>)

  /** The program table and the kind last passed to `use_program`. The
      operations are stated for any kind type, so that switching programs
      is meaningful although the source's `ShaderKind` has one variant. */
  datatype ShaderSystem<K> = ShaderSystem(programs: map<K, Shader>, active: K)

  /** A shader-system state and the WebGL calls that led to it */
  datatype Step<K> = Step(system: ShaderSystem<K>, calls: seq<GlCall>)

  /** A uniform lookup's updated shader, its answer, and its WebGL calls */
  datatype Lookup = Lookup(shader: Shader, location: Option<Location>, calls: seq<GlCall>)

  /** The active kind has a program. */
  predicate Valid<K>(sys: ShaderSystem<K>) {
    sys.active in sys.programs
  }

  /** `Shader::new`: compiling and linking are outside the model; their
      outcome is the parameter. A new shader has an empty uniform cache. */
  function NewShader(linked: Result<ProgramId, string>): (r: Result<Shader, string>)
    ensures r.Success? <==> linked.Success?
    ensures r.Success? ==> r.value.program == linked.value && |r.value.uniforms| == 0
    ensures r.Failure? ==> r.error == linked.error
  {
    var program :- linked;
    Success(Shader(program, map[]))
  }

  /** `ShaderSystem::new`: builds the solid-white program (a build failure
      panics), makes it current and registers it. */
  function NewSystem(linked: Result<ProgramId, string>): (r: Result<Step<ShaderKind>, Panic>)
    ensures r.Success? <==> linked.Success?
    ensures r.Failure? ==> r.error == ShaderBuildFailed(linked.error)
    ensures r.Success? ==>
      && Valid(r.value.system)
      && r.value.system.active == SolidWhite
      && r.value.system.programs.Keys == {SolidWhite}
      && r.value.system.programs[SolidWhite] == Shader(linked.value, map[])
      && r.value.calls == [UseProgram(linked.value)]
  {
    match NewShader(linked)
    case Failure(e) => Failure(ShaderBuildFailed(e))
    case Success(shader) =>
      Success(Step(ShaderSystem(map[SolidWhite := shader], SolidWhite), [UseProgram(shader.program)]))
  }

  /** `ShaderSystem::get` */
  function Get<K>(sys: ShaderSystem<K>, kind: K): (r: Option<Shader>)
    ensures r.Some? <==> kind in sys.programs
    ensures r.Some? ==> r.value == sys.programs[kind]
  {
    if kind in sys.programs then Some(sys.programs[kind]) else None
  }

  /** `ShaderSystem::use_program`: nothing happens when `kind` is already
      active; otherwise its program is made current (a missing program
      panics) and `kind` becomes active. */
  function UseProgramOp<K>(sys: ShaderSystem<K>, kind: K): (r: Result<Step<K>, Panic>)
    ensures sys.active == kind ==> r == Success(Step(sys, []))
    ensures sys.active != kind ==> (r.Success? <==> kind in sys.programs)
    ensures r.Failure? ==> r.error == ProgramMissing
    ensures r.Success? ==>
      && r.value.system.active == kind
      && r.value.system.programs == sys.programs
    ensures r.Success? && sys.active != kind ==>
      r.value.calls == [UseProgram(sys.programs[kind].program)]
  {
    if sys.active == kind then Success(Step(sys, []))
    else
      match Get(sys, kind)
      case None => Failure(ProgramMissing)
      case Some(shader) => Success(Step(sys.(active := kind), [UseProgram(shader.program)]))
  }

  /** A successful `use_program` keeps the system valid. */
  lemma UseProgramKeepsValid<K>(sys: ShaderSystem<K>, kind: K)
    requires Valid(sys)
    requires UseProgramOp(sys, kind).Success?
    ensures Valid(UseProgramOp(sys, kind).value.system)
  {
  }

  /** Selecting a program twice costs the same WebGL calls as once. */
  lemma UseProgramIdempotent<K>(sys: ShaderSystem<K>, kind: K)
    requires UseProgramOp(sys, kind).Success?
    ensures var s1 := UseProgramOp(sys, kind).value.system;
      UseProgramOp(s1, kind) == Success(Step(s1, []))
  {
  }

  /** With the source's one-variant `ShaderKind`, `use_program` never
      issues a WebGL call. */
  lemma SolidWhiteIsAlwaysActive(sys: ShaderSystem<ShaderKind>, kind: ShaderKind)
    ensures UseProgramOp(sys, kind) == Success(Step(sys, []))
  {
    assert sys.active.SolidWhite? && kind.SolidWhite?;
  }

  /** The number of times `kinds` differs from the kind before it, the
      first compared with `from` */
  function Switches<K(==)>(from: K, kinds: seq<K>): nat
    decreases |kinds|
  {
    if |kinds| == 0 then 0
    else (if kinds[0] == from then 0 else 1) + Switches(kinds[0], kinds[1..])
  }

  /** `use_program` for each of `kinds` in turn, collecting the calls */
  function UseMany<K>(sys: ShaderSystem<K>, kinds: seq<K>): (r: Result<Step<K>, Panic>)
    decreases |kinds|
  {
    if |kinds| == 0 then Success(Step(sys, []))
    else
      match UseProgramOp(sys, kinds[0])
      case Failure(e) => Failure(e)
      case Success(step) =>
        match UseMany(step.system, kinds[1..])
        case Failure(e) => Failure(e)
        case Success(rest) => Success(Step(rest.system, step.calls + rest.calls))
  }

  /** Every kind in `kinds` has a program. */
  predicate AllRegistered<K>(sys: ShaderSystem<K>, kinds: seq<K>) {
    forall i :: 0 <= i < |kinds| ==> kinds[i] in sys.programs
  }

  /** Over any run of `use_program` calls on registered kinds, WebGL is
      called once per change of kind and never otherwise, and the last kind
      ends active. */
  lemma {:induction false} UseManyCallsOncePerSwitch<K>(sys: ShaderSystem<K>, kinds: seq<K>)
    requires AllRegistered(sys, kinds)
    ensures UseMany(sys, kinds).Success?
    ensures |UseMany(sys, kinds).value.calls| == Switches(sys.active, kinds)
    ensures UseMany(sys, kinds).value.system.programs == sys.programs
    ensures UseMany(sys, kinds).value.system.active ==
      if |kinds| == 0 then sys.active else kinds[|kinds| - 1]
    decreases |kinds|
  {
    if |kinds| > 0 {
      var step := UseProgramOp(sys, kinds[0]).value;
      assert AllRegistered(step.system, kinds[1..]) by {
        forall i | 0 <= i < |kinds[1..]|
          ensures kinds[1..][i] in step.system.programs
        {
          assert kinds[1..][i] == kinds[i + 1];
        }
      }
      UseManyCallsOncePerSwitch(step.system, kinds[1..]);
    }
  }

  /** `Shader::get_uniform_location`: a cached name is answered from the
      cache; an uncached one is asked of WebGL once and cached, and a
      location WebGL does not know panics. The answer is always `Some`. */
  function GetUniformLocationOp(shader: Shader, gl: UniformOracle, name: string): (r: Result<Lookup, Panic>)
    ensures name in shader.uniforms ==>
      r == Success(Lookup(shader, Some(shader.uniforms[name]), []))
    ensures name !in shader.uniforms ==> (r.Success? <==> gl(shader.program, name).Some?)
    ensures r.Failure? ==> r.error == UniformNotFound(name)
    ensures r.Success? ==>
      && r.value.shader.program == shader.program
      && name in r.value.shader.uniforms
      && r.value.location == Some(r.value.shader.uniforms[name])
      && r.value.shader.uniforms.Keys == shader.uniforms.Keys + {name}
      && (forall n :: n in shader.uniforms && n != name ==>
            r.value.shader.uniforms[n] == shader.uniforms[n])
    ensures r.Success? && name !in shader.uniforms ==>
      && r.value.location == gl(shader.program, name)
      && r.value.calls == [GetUniformLocation(shader.program, name)]
  {
    if name !in shader.uniforms then
      match gl(shader.program, name)
      case None => Failure(UniformNotFound(name))
      case Some(loc) =>
        var cached := shader.(uniforms := shader.uniforms[name := loc]);
        Success(Lookup(cached, Some(cached.uniforms[name]), [GetUniformLocation(shader.program, name)]))
    else
      Success(Lookup(shader, Some(shader.uniforms[name]), []))
  }

  /** Every cached location is the one WebGL reports for that name. */
  predicate CacheAgrees(shader: Shader, gl: UniformOracle) {
    forall n :: n in shader.uniforms ==> gl(shader.program, n) == Some(shader.uniforms[n])
  }

  /** A freshly built system's shader caches nothing, so its cache agrees
      with any WebGL context. */
  lemma FreshSystemCacheAgrees(linked: Result<ProgramId, string>, gl: UniformOracle)
    requires NewSystem(linked).Success?
    ensures CacheAgrees(NewSystem(linked).value.system.programs[SolidWhite], gl)
  {
  }

  /** The cache is transparent: a lookup answers what WebGL would, and the
      cache stays in agreement with WebGL. */
  lemma LookupIsTransparent(shader: Shader, gl: UniformOracle, name: string)
    requires CacheAgrees(shader, gl)
    ensures var r := GetUniformLocationOp(shader, gl, name);
      (r.Success? <==> gl(shader.program, name).Some?) &&
      (r.Success? ==> r.value.location == gl(shader.program, name) && CacheAgrees(r.value.shader, gl))
  {
  }

  /** A second lookup of the same name makes no WebGL call and returns the
      same location. */
  lemma LookupTwiceCallsOnce(shader: Shader, gl: UniformOracle, name: string)
    requires GetUniformLocationOp(shader, gl, name).Success?
    ensures var first := GetUniformLocationOp(shader, gl, name).value;
      GetUniformLocationOp(first.shader, gl, name) == Success(Lookup(first.shader, first.location, []))
  {
  }

  /** The lookups of `names` in turn, threading the cache and collecting
      the calls */
  function LookupMany(shader: Shader, gl: UniformOracle, names: seq<string>): (r: Result<Lookup, Panic>)
    decreases |names|
  {
    if |names| == 0 then Success(Lookup(shader, None, []))
    else
      match GetUniformLocationOp(shader, gl, names[0])
      case Failure(e) => Failure(e)
      case Success(first) =>
        match LookupMany(first.shader, gl, names[1..])
        case Failure(e) => Failure(e)
        case Success(rest) =>
          Success(Lookup(rest.shader, if |names| == 1 then first.location else rest.location,
                         first.calls + rest.calls))
  }

  /** The names WebGL was asked about, in order */
  function QueriedNames(calls: seq<GlCall>): (ns: seq<string>)
    ensures |ns| <= |calls|
    decreases |calls|
  {
    if |calls| == 0 then []
    else
      match calls[0]
      case GetUniformLocation(_, n) => [n] + QueriedNames(calls[1..])
      case UseProgram(_) => QueriedNames(calls[1..])
  }

  /** No name occurs twice in `ns`. */
  predicate NoRepeats(ns: seq<string>) {
    forall i, j :: 0 <= i < j < |ns| ==> ns[i] != ns[j]
  }

  /** The set of names in `names` */
  function NameSet(names: seq<string>): (ns: set<string>)
    ensures forall i :: 0 <= i < |names| ==> names[i] in ns
    ensures forall n :: n in ns ==> exists i :: 0 <= i < |names| && names[i] == n
  {
    set i | 0 <= i < |names| :: names[i]
  }

  /** A successful run of lookups is the first lookup followed by the rest. */
  lemma LookupManyStep(shader: Shader, gl: UniformOracle, names: seq<string>)
    requires |names| > 0
    requires LookupMany(shader, gl, names).Success?
    ensures GetUniformLocationOp(shader, gl, names[0]).Success?
    ensures var first := GetUniformLocationOp(shader, gl, names[0]).value;
      && LookupMany(first.shader, gl, names[1..]).Success?
      && LookupMany(shader, gl, names).value.shader == LookupMany(first.shader, gl, names[1..]).value.shader
      && LookupMany(shader, gl, names).value.calls ==
           first.calls + LookupMany(first.shader, gl, names[1..]).value.calls
  {
  }

  /** Over any run of lookups every name looked up ends in the cache, and
      the shader's program is kept. */
  lemma {:induction false} LookupManyCachesAll(shader: Shader, gl: UniformOracle, names: seq<string>)
    requires LookupMany(shader, gl, names).Success?
    ensures LookupMany(shader, gl, names).value.shader.uniforms.Keys == shader.uniforms.Keys + NameSet(names)
    ensures LookupMany(shader, gl, names).value.shader.program == shader.program
    decreases |names|
  {
    if |names| > 0 {
      LookupManyStep(shader, gl, names);
      var first := GetUniformLocationOp(shader, gl, names[0]).value;
      LookupManyCachesAll(first.shader, gl, names[1..]);
      assert NameSet(names) == {names[0]} + NameSet(names[1..]) by {
        forall i | 1 <= i < |names|
          ensures names[i] in NameSet(names[1..])
        {
          assert names[1..][i - 1] == names[i];
        }
      }
    }
  }

  /** Over any run of lookups, WebGL is asked about each name at most once,
      and never about a name that was already cached. */
  lemma {:induction false} LookupManyNoRedundantQuery(shader: Shader, gl: UniformOracle, names: seq<string>)
    requires LookupMany(shader, gl, names).Success?
    ensures var queried := QueriedNames(LookupMany(shader, gl, names).value.calls);
      && NoRepeats(queried)
      && forall i :: 0 <= i < |queried| ==> queried[i] !in shader.uniforms
    decreases |names|
  {
    if |names| > 0 {
      LookupManyStep(shader, gl, names);
      var first := GetUniformLocationOp(shader, gl, names[0]).value;
      var rest := LookupMany(first.shader, gl, names[1..]).value;
      LookupManyNoRedundantQuery(first.shader, gl, names[1..]);
      QueriedNamesAppend(first.calls, rest.calls);
      var restQ := QueriedNames(rest.calls);
      assert forall i :: 0 <= i < |restQ| ==> restQ[i] !in shader.uniforms && restQ[i] != names[0];
      if names[0] in shader.uniforms {
        assert QueriedNames(first.calls) == [];
      } else {
        assert QueriedNames(first.calls) == [names[0]];
      }
    }
  }

  /** The names queried by two call logs in a row */
  lemma {:induction false} QueriedNamesAppend(a: seq<GlCall>, b: seq<GlCall>)
    ensures QueriedNames(a + b) == QueriedNames(a) + QueriedNames(b)
    decreases |a|
  {
    if |a| > 0 {
      assert (a + b)[1..] == a[1..] + b;
      QueriedNamesAppend(a[1..], b);
    } else {
      assert a + b == b;
    }
  }
}
