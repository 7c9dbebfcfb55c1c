/** `Engine` of src/exclude/Engine.ts as a kernel registry: kernel names map
    to factories, and the current kernel is one a factory created. Factories
    and kernels are known by identity only; `create()` is a call into kernel
    code and is modelled as tagging the kernel with its factory. */
module Engine {
  import opened Wrappers

  datatype Factory = Factory(id: nat)

  /** A kernel object, by the factory that created it. */
  datatype Kernel = Kernel(createdBy: Factory)

  /** An entry of the list the constructor takes. */
  datatype Entry = Entry(name: string, factory: Factory)

  /** The registry and the current kernel (`None` before any is set). */
  datatype Engine = Engine(kernels: map<string, Factory>, kernel: Option<Kernel>)

  /** `addKernel(name, factory)`: refused, changing nothing, when the name is
      taken; otherwise the name maps to the factory and nothing else moves. */
  function AddKernel(e: Engine, name: string, factory: Factory): (r: (Engine, bool))
    ensures r.1 <==> name !in e.kernels
    ensures !r.1 ==> r.0 == e
    ensures r.1 ==> r.0.kernels == e.kernels[name := factory] && r.0.kernel == e.kernel
  {
    if name in e.kernels then (e, false)
    else (e.(kernels := e.kernels[name := factory]), true)
  }

  /** `removeKernel(name)`: reports whether the name was registered, and
      leaves it unregistered; the current kernel is kept. */
  function RemoveKernel(e: Engine, name: string): (r: (Engine, bool))
    ensures r.1 <==> name in e.kernels
    ensures name !in r.0.kernels && r.0.kernel == e.kernel
    ensures forall n :: n != name ==> (n in r.0.kernels <==> n in e.kernels)
    ensures forall n :: n != name && n in e.kernels ==> r.0.kernels[n] == e.kernels[n]
  {
    (e.(kernels := e.kernels - {name}), name in e.kernels)
  }

  /** `setKernel(name)`: refused, changing nothing, for an unknown name;
      otherwise the current kernel is a new one from the name's factory. */
  function SetKernel(e: Engine, name: string): (r: (Engine, bool))
    ensures r.1 <==> name in e.kernels
    ensures !r.1 ==> r.0 == e
    ensures r.1 ==> r.0.kernel == Some(Kernel(e.kernels[name])) && r.0.kernels == e.kernels
  {
    if name in e.kernels then (e.(kernel := Some(Kernel(e.kernels[name]))), true)
    else (e, false)
  }

  /** The `forEach` of the constructor: `addKernel` for every entry in
      order. */
  function AddAll(e: Engine, entries: seq<Entry>): Engine
    decreases |entries|
  {
    if |entries| == 0 then e
    else AddAll(AddKernel(e, entries[0].name, entries[0].factory).0, entries[1..])
  }

  /** The factory of the first entry with a name, if any. */
  function FirstFactory(entries: seq<Entry>, name: string): Option<Factory>
    decreases |entries|
  {
    if |entries| == 0 then None
    else if entries[0].name == name then Some(entries[0].factory)
    else FirstFactory(entries[1..], name)
  }

  /** Adding a list of entries keeps every name already registered, and
      registers each new name with the factory of its first entry; later
      duplicates are ignored. */
  lemma {:induction false} AddAllFirstWins(e: Engine, entries: seq<Entry>, name: string)
    ensures var r := AddAll(e, entries);
      && r.kernel == e.kernel
      && (name in e.kernels ==> name in r.kernels && r.kernels[name] == e.kernels[name])
      && (name !in e.kernels ==>
            (name in r.kernels <==> FirstFactory(entries, name).Some?)
            && (name in r.kernels ==> Some(r.kernels[name]) == FirstFactory(entries, name)))
    decreases |entries|
  {
    if |entries| > 0 {
      AddAllFirstWins(AddKernel(e, entries[0].name, entries[0].factory).0, entries[1..], name);
    }
  }

  /** `new Engine(kernels)`: every entry is added, then the kernel named by
      the first entry is set; an empty list has no first entry to read, so
      the constructor throws. */
  function New(entries: seq<Entry>): (r: Result<Engine>)
    ensures |entries| == 0 <==> r.Err?
  {
    if |entries| == 0 then Err(TypeError("cannot read property 'name' of undefined"))
    else
      var e := AddAll(Engine(map[], None), entries);
      AddAllFirstWins(Engine(map[], None), entries, entries[0].name);
      Ok(SetKernel(e, entries[0].name).0)
  }

  /** A constructed engine registers exactly the listed names, each with its
      first factory, and its kernel comes from the first entry's factory. */
  lemma NewRegistry(entries: seq<Entry>, name: string)
    requires |entries| > 0
    ensures var e := New(entries).value;
      && e.kernel == Some(Kernel(entries[0].factory))
      && (name in e.kernels <==> FirstFactory(entries, name).Some?)
      && (name in e.kernels ==> Some(e.kernels[name]) == FirstFactory(entries, name))
  {
    AddAllFirstWins(Engine(map[], None), entries, name);
    AddAllFirstWins(Engine(map[], None), entries, entries[0].name);
  }
}
