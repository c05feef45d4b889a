/**
 * The flash filesystem collaborator, reduced to what the core observes: an
 * ordered directory of named byte strings. Directory iteration visits the
 * entries in sequence order.
 */
module Storage {
  import opened Wrappers
  import opened GifTypes

  datatype File = File(name: string, data: seq<byte>)

  type Fs = seq<File>

  /** The names in directory-iteration order. */
  function Names(fs: Fs): (r: seq<string>)
    ensures |r| == |fs|
    ensures forall i :: 0 <= i < |fs| ==> r[i] == fs[i].name
  {
    if |fs| == 0 then [] else [fs[0].name] + Names(fs[1..])
  }

  /** Opening `name` for reading: the first entry of that name, if any. */
  function Lookup(fs: Fs, name: string): (r: Option<seq<byte>>)
    ensures r.None? <==> forall i :: 0 <= i < |fs| ==> fs[i].name != name
    ensures r.Some? ==> exists i :: 0 <= i < |fs| && fs[i].name == name && fs[i].data == r.value
  {
    if |fs| == 0 then None
    else if fs[0].name == name then Some(fs[0].data)
    else Lookup(fs[1..], name)
  }

  predicate Exists(fs: Fs, name: string) {
    Lookup(fs, name).Some?
  }

  /** Removing a name drops every entry of that name and keeps the rest in order. */
  function Remove(fs: Fs, name: string): (r: Fs)
    ensures forall i :: 0 <= i < |r| ==> r[i].name != name
    ensures forall f :: f in fs && f.name != name ==> f in r
    ensures forall f :: f in r ==> f in fs
  {
    if |fs| == 0 then []
    else if fs[0].name == name then Remove(fs[1..], name)
    else [fs[0]] + Remove(fs[1..], name)
  }

  /** Opening `name` for writing and writing `data`: the entry is replaced or appended. */
  function Store(fs: Fs, name: string, data: seq<byte>): (r: Fs)
    ensures Lookup(r, name) == Some(data)
  {
    if |fs| == 0 then [File(name, data)]
    else if fs[0].name == name then [File(name, data)] + Remove(fs[1..], name)
    else [fs[0]] + Store(fs[1..], name, data)
  }

  /** Removing a name makes it absent and leaves every other name as it was. */
  lemma {:induction false} LookupRemove(fs: Fs, name: string, other: string)
    ensures Lookup(Remove(fs, name), name).None?
    ensures other != name ==> Lookup(Remove(fs, name), other) == Lookup(fs, other)
  {
    if |fs| > 0 {
      LookupRemove(fs[1..], name, other);
    }
  }

  /** Storing under one name leaves every other name as it was. */
  lemma {:induction false} LookupStore(fs: Fs, name: string, data: seq<byte>, other: string)
    requires other != name
    ensures Lookup(Store(fs, name, data), other) == Lookup(fs, other)
  {
    if |fs| > 0 {
      LookupStore(fs[1..], name, data, other);
      if fs[0].name == name {
        LookupRemove(fs[1..], name, other);
      }
    }
  }
}
