/** MergedDescriptorDatabase: several databases searched in order, the earlier ones masking files
    of the same name in the later ones. */
module MergedDatabase {
  import opened SimpleIndex

  datatype File = File(name: string, content: string)

  /** A database, by the answers it gives. The keys of `find` are symbols, or extensions. */
  datatype Source<!K> = Source(byName: string -> Option<File>, find: K -> Option<File>)

  /** A file found by what it contains is the file found under its own name. */
  ghost predicate Consistent<K(!new)>(source: Source<K>) {
    forall k :: source.find(k).Some? ==> source.byName(source.find(k).value.name) == source.find(k)
  }

  /** The first of the sources, from index i on, that knows the name. */
  function FirstByName<K>(sources: seq<Source<K>>, name: string, i: nat): Option<File>
    requires i <= |sources|
    decreases |sources| - i
  {
    if i == |sources| then None
    else if sources[i].byName(name).Some? then sources[i].byName(name)
    else FirstByName(sources, name, i + 1)
  }

  /** The first source that finds k. */
  ghost predicate FirstHit<K(!new)>(sources: seq<Source<K>>, k: K, i: nat) {
    i < |sources| && sources[i].find(k).Some? && forall j :: 0 <= j < i ==> sources[j].find(k).None?
  }

  ghost predicate Masked<K>(sources: seq<Source<K>>, name: string, i: nat) {
    exists j :: 0 <= j < i && j < |sources| && sources[j].byName(name).Some?
  }

  /** What FindFileContaining answers, as a function of the sources. */
  ghost predicate Answers<K(!new)>(sources: seq<Source<K>>, k: K, output: Option<File>) {
    && (output.Some? <==>
          exists i: nat :: FirstHit(sources, k, i) && !Masked(sources, sources[i].find(k).value.name, i))
    && (forall i: nat :: output.Some? && FirstHit(sources, k, i) ==> output == sources[i].find(k))
  }

  class MergedDescriptorDatabase<K(!new)> {
    const sources: seq<Source<K>>

    constructor (sources: seq<Source<K>>)
      ensures this.sources == sources
    {
      this.sources := sources;
    }

    method FindFileByName(filename: string) returns (output: Option<File>)
      ensures output == FirstByName(sources, filename, 0)
    {
      var i := 0;
      while i < |sources|
        invariant i <= |sources| && FirstByName(sources, filename, i) == FirstByName(sources, filename, 0)
      {
        output := sources[i].byName(filename);
        if output.Some? { return; }
        i := i + 1;
      }
      output := None;
    }

    /** FindFileContainingSymbol and FindFileContainingExtension have the same body. */
    method FindFileContaining(k: K) returns (output: Option<File>)
      ensures Answers(sources, k, output)
    {
      var i := 0;
      while i < |sources|
        invariant i <= |sources| && forall j :: 0 <= j < i ==> sources[j].find(k).None?
      {
        output := sources[i].find(k);
        if output.Some? {
          assert FirstHit(sources, k, i);
          var j := 0;
          while j < i
            invariant j <= i && forall l :: 0 <= l < j ==> sources[l].byName(output.value.name).None?
          {
            if sources[j].byName(output.value.name).Some? {
              HitIsUnique(sources, k, i);
              return None;
            }
            j := j + 1;
          }
          HitIsUnique(sources, k, i);
          return;
        }
        i := i + 1;
      }
      output := None;
    }
  }

  lemma HitIsUnique<K(!new)>(sources: seq<Source<K>>, k: K, i: nat)
    requires FirstHit(sources, k, i)
    ensures forall j: nat :: FirstHit(sources, k, j) ==> j == i
  {
  }

  lemma {:induction false} FirstByNameSkips<K>(sources: seq<Source<K>>, name: string, i: nat, from: nat)
    requires from <= i < |sources|
    ensures (forall j :: from <= j < i ==> sources[j].byName(name).None?) && sources[i].byName(name).Some?
      ==> FirstByName(sources, name, from) == sources[i].byName(name)
    decreases i - from
  {
    if from < i { FirstByNameSkips(sources, name, i, from + 1); }
  }

  /** Over consistent sources, the merged database is consistent again: a file it finds by content
      is the one it finds by name. */
  lemma {:induction false} MergedIsConsistent<K(!new)>(sources: seq<Source<K>>, k: K, output: Option<File>)
    requires forall i :: 0 <= i < |sources| ==> Consistent(sources[i])
    requires Answers(sources, k, output) && output.Some?
    ensures FirstByName(sources, output.value.name, 0) == output
  {
    var i: nat :| FirstHit(sources, k, i) && !Masked(sources, sources[i].find(k).value.name, i);
    FirstByNameSkips(sources, output.value.name, i, 0);
  }

  /** It finds nothing exactly when no source does, or when the name of the first match leads,
      in an earlier source, to a file that does not contain what was searched. */
  lemma {:induction false} NothingIffMasked<K(!new)>(sources: seq<Source<K>>, k: K, output: Option<File>)
    requires forall i :: 0 <= i < |sources| ==> Consistent(sources[i])
    requires Answers(sources, k, output)
    ensures output.None? <==>
      (forall i :: 0 <= i < |sources| ==> sources[i].find(k).None?)
      || exists i: nat, j: nat :: j < i && FirstHit(sources, k, i) && sources[j].find(k).None?
           && sources[j].byName(sources[i].find(k).value.name).Some?
           && (forall l :: 0 <= l < j ==> sources[l].byName(sources[i].find(k).value.name).None?)
  {
    if i: nat :| FirstHit(sources, k, i) {
      HitIsUnique(sources, k, i);
      var name := sources[i].find(k).value.name;
      if Masked(sources, name, i) {
        var j: nat :| j < i && sources[j].byName(name).Some?;
        var l := FirstMasking(sources, name, j);
        assert sources[l].find(k).None?;
      }
    } else {
      if i :| 0 <= i < |sources| && sources[i].find(k).Some? {
        var l := FirstFinding(sources, k, i);
        assert FirstHit(sources, k, l);
      }
    }
  }

  lemma {:induction false} FirstMasking<K>(sources: seq<Source<K>>, name: string, j: nat) returns (l: nat)
    requires j < |sources| && sources[j].byName(name).Some?
    ensures l <= j && sources[l].byName(name).Some? && forall m :: 0 <= m < l ==> sources[m].byName(name).None?
  {
    l := 0;
    while sources[l].byName(name).None?
      invariant l <= j && forall m :: 0 <= m < l ==> sources[m].byName(name).None?
      decreases j - l
    {
      l := l + 1;
    }
  }

  lemma {:induction false} FirstFinding<K>(sources: seq<Source<K>>, k: K, j: nat) returns (l: nat)
    requires j < |sources| && sources[j].find(k).Some?
    ensures l <= j && sources[l].find(k).Some? && forall m :: 0 <= m < l ==> sources[m].find(k).None?
  {
    l := 0;
    while sources[l].find(k).None?
      invariant l <= j && forall m :: 0 <= m < l ==> sources[m].find(k).None?
      decreases j - l
    {
      l := l + 1;
    }
  }
}
