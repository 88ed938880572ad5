# nchoputa core, modelled in Dafny

nchoputa is a browser chart viewer for sea-level time series: a small
server holds the datasets and a WebAssembly viewer draws them with WebGL.
This project models the four pieces of self-contained logic in that code
and proves what they promise:

- **Graph extrema** (`shared/src/response.rs`, module `Response`). `max_x` and
  `min_x` read the date of the last and first point. `max_y` and `min_y`
  fold `f32::max` / `f32::min` over the values, starting from the
  `f32::MIN` / `f32::MAX` sentinels. Dates are day numbers counted from
  1970-01-01, so `NaiveDate::default()` is day 0. `f32` is the newtype `F32`:
  the reals between `-f32::MAX` and `f32::MAX`.
- **Viewer store** (`viewer/src/store.rs`, module `ViewerStore`).
  `Store` forwards each message to `StateWrapper`, which forwards it to
  `State`. The only message, `WindowResized`, records the canvas
  dimensions. `u32` is a bounded newtype. A message cannot carry a value
  out of range, so no wrap-around arises.
- **Dataset catalogue** (`src/graphs.rs`, module `Graphs`).
  - `GRAPHS` lists the two sea-level series.
  - `INDEX` is the left fold that inserts each graph under its name.
  - `points_from_tsv` converts deserialised TSV rows into points and stops
    at the first bad row.
  - Opening and parsing the file is an oracle (`Opener`). It maps a path
    to the row results the TSV reader would yield.
- **Shader caches** (`viewer/src/shader/mod.rs`, module `Shaders`).
  - `ShaderSystem` remembers the active program and skips a redundant
    `use_program`.
  - `Shader` memoises `get_uniform_location` per name.
  - The WebGL context is an oracle (`UniformOracle`), and program and
    location handles are opaque numbers.
  - Every operation that does not panic returns its `use_program` and
    `get_uniform_location` calls as an explicit log (`GlCall`), so "no
    redundant call" is a statement about that log. A query that ends in a
    panic is not logged.
  - `RefCell` interior mutation is modelled by returning the updated value.
  - The source's `ShaderKind` has one variant, `SolidWhite`. The
    operations are therefore stated for any kind type `K`, so the
    program-switch branch is not dead code. `SolidWhiteIsAlwaysActive`
    states what the one-variant enum implies.

A panic (`unwrap`, `expect`) becomes a `Failure` outcome with a `Panic` or
`ReadError` value. Rust's `?` becomes Dafny's `:-`. Helper modules:
`Wrappers` holds `Option`, `Result`, `First` and `Last`.

## Model

| member | source | states |
|---|---|---|
| Response.MaxX | shared/src/response.rs:43-54 | the date of the last point, or day 0 (the default date) when there are no points |
| Response.MinX | shared/src/response.rs:56-66 | the date of the first point, or day 0 when there are no points |
| Response.Max | shared/src/response.rs:72 | `f32::max` on non-NaN operands: at least both operands, and equal to one of them |
| Response.Min | shared/src/response.rs:79 | `f32::min` on non-NaN operands: at most both operands, and equal to one of them |
| Response.FoldMax | shared/src/response.rs:69-72 | the left fold of `f32::max` is at least the seed and every value, and equals the seed or one of the values |
| Response.FoldMin | shared/src/response.rs:76-79 | the left fold of `f32::min` is at most the seed and every value, and equals the seed or one of the values |
| Response.MaxY | shared/src/response.rs:68-73 | at least every point's value; equal to some point's value when there are points; the `f32::MIN` sentinel when there are none |
| Response.MinY | shared/src/response.rs:75-80 | at most every point's value; equal to some point's value when there are points; the `f32::MAX` sentinel when there are none |
| Response.SortedBounds | shared/src/response.rs:48-53 | if the series is in date order, every point's date lies between `MinX` and `MaxX` |
| Response.SortedExtrema | shared/src/response.rs:44-65 | if the series is in date order and not empty, `MinX` and `MaxX` are the earliest and latest dates, as the commented-out folds would compute |
| Response.UnsortedExtremaArePositional | shared/src/response.rs:50-65 | a two-point series out of date order whose `MaxX` is not its latest date and whose `MinX` is not its earliest |
| Response.YRange | shared/src/response.rs:68-80 | `MinY <= MaxY` for a non-empty series; for an empty one the range is inverted (`MaxY < MinY`) |
| ViewerStore.NewState | viewer/src/store.rs:26-33 | a fresh state has a 0 by 0 canvas |
| ViewerStore.StateMsg | viewer/src/store.rs:35-42 | after `WindowResized(d)` the width is `d.width` and the height is `d.height` |
| ViewerStore.Deref | viewer/src/store.rs:47-53 | the state the wrapper exposes is the one it wraps: wrapping it again gives back the same wrapper |
| ViewerStore.WrapperMsg | viewer/src/store.rs:55-58 | the wrapper's state after a message is `State::msg` applied to the state it wraps |
| ViewerStore.NewStore | viewer/src/store.rs:8-12 | a fresh store's state has a 0 by 0 canvas |
| ViewerStore.StoreMsg | viewer/src/store.rs:14-18 | the store forwards every message unchanged, so its state after a message is `State::msg` applied to its state |
| ViewerStore.RunKeepsLastResize | viewer/src/store.rs:35-42 | after any run of messages the canvas has the last message's dimensions, or the old ones when there was none |
| ViewerStore.FreshRun | viewer/src/store.rs:8-42 | from a fresh store, any run ends at the last resize, or at 0 by 0 |
| ViewerStore.RunForgetsStart | viewer/src/store.rs:35-42 | two stores that handle the same non-empty run of messages end equal |
| ViewerStore.ResizeIdempotent | viewer/src/store.rs:35-42 | handling the same resize twice gives the same store as handling it once |
| Graphs.FoldIndex | src/graphs.rs:33-36 | the fold's keys are the seed's keys plus the graphs' names; every entry stays under its own graph's name; entries for names not in the list are untouched; a graph that no later graph shares a name with is the entry under its name |
| Graphs.BuildIndex | src/graphs.rs:27-38 | the index's keys are exactly the names of the listed graphs, and each entry's graph has its key as its name |
| Graphs.IndexHoldsLastGraph | src/graphs.rs:27-38 | every listed name is a key, and its entry is the last listed graph with that name (found by searching from the back), so a later duplicate overwrites an earlier one |
| Graphs.NamesCardinality | src/graphs.rs:33-36 | there are at most as many distinct names as graphs, and exactly as many when no two graphs share a name |
| Graphs.IndexSize | src/graphs.rs:33-36 | the index has at most one entry per graph, and exactly one per graph when names are distinct |
| Graphs.PointsFromRows | src/graphs.rs:50-55 | success exactly when every row parsed; then one point per row, in row order, with the row's date and value; otherwise the error of the first bad row |
| Graphs.DataFile | src/graphs.rs:48 | the file path is `data/`, then the dataset path, then `.tsv` |
| Graphs.TsvPoints | src/graphs.rs:47-55 | what reading a data file yields: the open error; or, once the file opens, success exactly when every row parsed, then one point per row in row order, and otherwise the error of the first failed row |
| Graphs.PointsFromTsv | src/graphs.rs:47-55 | a file that will not open yields its open error; once it opens, success exactly when every row parsed, then one point per row in row order, otherwise the first failed row's error; the result equals `TsvPoints` |
| Graphs.LoadGraphs | src/graphs.rs:10-25 | the load succeeds exactly when both series read; it then lists CSIRO then UHSLC with their descriptions, colours and read points, and its index has exactly those two keys; a CSIRO read failure is the error reported, and otherwise a UHSLC read failure is |
| Shaders.NewShader | viewer/src/shader/mod.rs:56-68 | a shader exists exactly when compiling and linking succeeded; it carries the linked program and an empty uniform cache |
| Shaders.NewSystem | viewer/src/shader/mod.rs:15-29 | a build failure panics; otherwise `SolidWhite` is the only registered kind and is active, its shader is the fresh one with an empty uniform cache, and exactly one `use_program` call for its program was made |
| Shaders.FreshSystemCacheAgrees | viewer/src/shader/mod.rs:15-29 | the shader of a freshly built system caches nothing, so its cache agrees with any WebGL context |
| Shaders.Get | viewer/src/shader/mod.rs:31-33 | `Some` exactly when the kind is registered, holding its shader |
| Shaders.UseProgramOp | viewer/src/shader/mod.rs:35-43 | selecting the active kind changes nothing and calls nothing; selecting another kind panics exactly when it is unregistered, and otherwise makes one `use_program` call for its program and makes it active; the program table is never changed |
| Shaders.UseProgramKeepsValid | viewer/src/shader/mod.rs:35-43 | a successful selection keeps the active kind registered |
| Shaders.UseProgramIdempotent | viewer/src/shader/mod.rs:36-38 | selecting a kind right after selecting it is a no-op with no WebGL call |
| Shaders.SolidWhiteIsAlwaysActive | viewer/src/shader/mod.rs:35-48 | with the one-variant `ShaderKind`, every `use_program` is a no-op |
| Shaders.UseManyCallsOncePerSwitch | viewer/src/shader/mod.rs:35-43 | over any run of selections of registered kinds, the number of WebGL calls equals the number of changes of kind, and the last kind ends active |
| Shaders.GetUniformLocationOp | viewer/src/shader/mod.rs:70-86 | a cached name is answered from the cache with no WebGL call; an uncached name is asked of WebGL once and panics if WebGL does not know it, and otherwise the location cached and answered is the one WebGL returned; on success the name is cached, the answer is `Some` of the cached entry, and every other entry is unchanged |
| Shaders.LookupIsTransparent | viewer/src/shader/mod.rs:77-85 | if the cache agrees with WebGL, a lookup answers what WebGL would, and the cache still agrees afterwards |
| Shaders.LookupTwiceCallsOnce | viewer/src/shader/mod.rs:77 | a second lookup of a name returns the same location with no WebGL call |
| Shaders.LookupManyCachesAll | viewer/src/shader/mod.rs:77-85 | after any successful run of lookups, the cache holds exactly the names it held before plus every name looked up, and the shader's program is unchanged |
| Shaders.LookupManyNoRedundantQuery | viewer/src/shader/mod.rs:77-85 | over any run of lookups, WebGL is asked about each name at most once, and never about a name that was already cached |

## Left out

- WebGL draw paths, buffer uploads and draw calls: these are foreign calls with no logic of their own. Files: `viewer/src/render/mod.rs`, `viewer/src/app.rs`, `viewer/src/render.rs`, `lib/src/render/mod.rs`.
- Projection and model-view matrices: floating-point numerics in a matrix library outside this model.
- Shader compile and link helpers (`viewer/src/shader/mod.rs:89-139`, `viewer/src/lib.rs:100-149`): thin wrappers over WebGL status queries. `NewShader` takes their outcome as a parameter.
- DOM canvas setup (`viewer/src/canvas.rs`), the HTTP server (`src/main.rs`) and `build.rs`: browser, network and build I/O.
- File opening and CSV/date parsing in `points_from_tsv`: I/O and a foreign parser. They become the `Opener` oracle. The reader is lazy, and rows after the first bad one are never used; this is modelled by stopping at the first failed row.
- `Lazy` and `RwLock` around `GRAPHS` and `INDEX`: their concern is one-time concurrent initialisation. The index is a pure function of the graph list.
- NaN, infinities and `f32` rounding: `F32` is an ordered set of finite reals, and `Max`/`Min` are `f32::max`/`f32::min` on non-NaN operands.
- `GraphList`, `GraphIndex` and `GraphSummary`: serialisation records with no behaviour.
- `WebClient::update` (`viewer/src/lib.rs:89-91`): it sends an `AdvanceClock` message that `store.rs` does not define, so it has no behaviour in the store to model.
- The purity of the four `GraphData` accessors (they take `&self`) is not a separate statement. In Dafny they are functions of an immutable value, so they cannot change the points.
- The axis tick-spacing engine and the nearest-point locator belong to later versions of the viewer; the version modelled here has neither.
