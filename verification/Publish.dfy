/** Publishing one immutable snapshot directory (`_bmad/scripts/render_skill.py`). */
module Publish {
  import opened Core

  const MANIFEST := "manifest.json"

  /** A directory's files, by path relative to it. */
  type Dir = map<string, string>

  /** What a snapshot says it holds: the identity of its inputs, and each output's digest. */
  datatype Manifest = Manifest(inputs: string, outputs: map<string, string>)

  /** The digest and the JSON codec, taken as given. */
  datatype Tools = Tools(digest: string -> string, dumps: Manifest -> string, loads: string -> Option<Manifest>)

  /** Different contents have different digests, and a written manifest reads back. */
  ghost predicate Sound(tools: Tools) {
    && (forall x, y :: tools.digest(x) == tools.digest(y) ==> x == y)
    && (forall m :: tools.loads(tools.dumps(m)) == Some(m))
  }

  datatype PublishError = Corrupt | Collision | UnexpectedFiles | OutputMismatch(name: string) | DiskError

  function Snapshot(outputs: Dir, manifest: Manifest, tools: Tools): Dir {
    outputs[MANIFEST := tools.dumps(manifest)]
  }

  /** Each file's digest. */
  function Digests(files: Dir, tools: Tools): map<string, string> {
    map name | name in files :: tools.digest(files[name])
  }

  ghost predicate Lists(manifest: Manifest, outputs: Dir, tools: Tools) {
    manifest.outputs == Digests(outputs, tools)
  }

  /** The directory is the snapshot of these outputs, whatever the layout of its manifest's text. */
  ghost predicate Holds(dir: Dir, outputs: Dir, manifest: Manifest, tools: Tools) {
    && "manifest.json" in dir && tools.loads(dir["manifest.json"]) == Some(manifest)
    && dir - {"manifest.json"} == outputs
  }

  // ------------------------------------------------------------------------ verifying a directory

  /** The first check a directory fails, in the order they are made; a hash may fail at any name. */
  ghost predicate Verdict(dir: Dir, manifest: Manifest, tools: Tools, r: Result<(), PublishError>) {
    var found := if MANIFEST in dir then tools.loads(dir[MANIFEST]) else None;
    if found.None? then r == Failure(Corrupt)
    else if found.value != manifest then r == Failure(Collision)
    else if dir.Keys != manifest.outputs.Keys + {MANIFEST} then r == Failure(UnexpectedFiles)
    else if r.Failure? then
      && r.error.OutputMismatch? && r.error.name in manifest.outputs
      && tools.digest(dir[r.error.name]) != manifest.outputs[r.error.name]
    else forall name :: name in manifest.outputs ==> tools.digest(dir[name]) == manifest.outputs[name]
  }

  /** `_verify_existing`. */
  method VerifyExisting(dir: Dir, manifest: Manifest, tools: Tools) returns (r: Result<(), PublishError>)
    ensures Verdict(dir, manifest, tools, r)
  {
    if MANIFEST !in dir {
      return Failure(Corrupt);
    }
    var existing := tools.loads(dir[MANIFEST]);
    if existing.None? {
      return Failure(Corrupt);
    }
    if existing.value != manifest {
      return Failure(Collision);
    }
    if dir.Keys != manifest.outputs.Keys + {MANIFEST} {
      return Failure(UnexpectedFiles);
    }
    var names := manifest.outputs.Keys;
    while names != {}
      invariant names <= manifest.outputs.Keys
      invariant forall name :: name in manifest.outputs && name !in names ==>
        tools.digest(dir[name]) == manifest.outputs[name]
      decreases |names|
    {
      var name := Pick(names);
      if tools.digest(dir[name]) != manifest.outputs[name] {
        return Failure(OutputMismatch(name));
      }
      names := names - {name};
    }
    r := Success(());
  }

  /** The digests stand for the contents: a directory is accepted exactly when it is the snapshot. */
  lemma AcceptedExactlyWhenItHoldsTheOutputs(dir: Dir, outputs: Dir, manifest: Manifest, tools: Tools,
                                             r: Result<(), PublishError>)
    requires Sound(tools) && Lists(manifest, outputs, tools) && MANIFEST !in outputs
    requires Verdict(dir, manifest, tools, r)
    ensures r.Success? <==> Holds(dir, outputs, manifest, tools)
  {
    if r.Success? {
      forall name | name in outputs ensures dir[name] == outputs[name] {
        assert name in manifest.outputs;
      }
      assert (dir - {MANIFEST}).Keys == outputs.Keys;
      assert dir - {MANIFEST} == outputs;
    }
    if Holds(dir, outputs, manifest, tools) {
      assert dir.Keys == (dir - {MANIFEST}).Keys + {MANIFEST};
      forall name | name in outputs ensures dir[name] == outputs[name] {
        assert (dir - {MANIFEST})[name] == outputs[name];
      }
    }
  }

  lemma ASnapshotHoldsItsOutputs(outputs: Dir, manifest: Manifest, tools: Tools)
    requires Sound(tools) && MANIFEST !in outputs
    ensures Holds(Snapshot(outputs, manifest, tools), outputs, manifest, tools)
  {
    assert Snapshot(outputs, manifest, tools) - {MANIFEST} == outputs;
  }

  lemma OneFileMore(outputs: Dir, names: set<string>, name: string)
    requires name in names && name in outputs
    ensures (outputs - names)[name := outputs[name]] == outputs - (names - {name})
  {
  }

  lemma NothingLeftBehind(staging: map<nat, Dir>, mine: nat, before: Dir, files: Dir)
    requires mine !in staging
    ensures var held := staging[mine := before][mine := files];
      held - {mine} == staging && held - {mine} - {mine} == staging
  {
  }

  // -------------------------------------------------------------------------- one call of `_publish`

  /** What this process meets outside its own control: how many writes the disk takes, whether the
    * rename fails for a reason of its own, and a directory with files in it that another process puts
    * in place meanwhile. */
  datatype World = World(writes: nat, renameFails: bool, rival: Option<Dir>)

  /** The directory that holds the generations: the destination, and the staging directories in it. */
  class Generations {
    var destination: Option<Dir>
    var staging: map<nat, Dir>

    constructor ()
      ensures destination == None && staging == map[]
    {
      destination := None;
      staging := map[];
    }

    method Write(mine: nat, name: string, content: string)
      requires mine in staging
      modifies `staging
      ensures staging == old(staging)[mine := old(staging)[mine][name := content]]
    {
      staging := staging[mine := staging[mine][name := content]];
    }

    /** Writes the outputs into a staging directory; false when the disk stops before the last one. */
    method WriteOutputs(mine: nat, outputs: Dir, writes: nat) returns (written: bool)
      requires mine in staging && staging[mine] == map[]
      modifies `staging
      ensures mine in staging && staging == old(staging)[mine := staging[mine]]
      ensures written <==> writes >= |outputs|
      ensures written ==> staging[mine] == outputs
    {
      var names, left := outputs.Keys, writes;
      assert |outputs.Keys| == |outputs|;
      ghost var files: Dir := map[];
      while names != {}
        invariant names <= outputs.Keys && |outputs| - |names| == writes - left
        invariant mine in staging && staging[mine] == files && staging == old(staging)[mine := files]
        invariant files == outputs - names
        decreases |names|
      {
        if left == 0 {
          return false;
        }
        var name := Pick(names);
        Write(mine, name, outputs[name]);
        OneFileMore(outputs, names, name);
        files := files[name := outputs[name]];
        names, left := names - {name}, left - 1;
      }
      assert files == outputs;
      written := true;
    }

    /** The outputs and then the manifest, which says that they are all there. */
    method Stage(mine: nat, outputs: Dir, manifest: Manifest, tools: Tools, writes: nat) returns (written: bool)
      requires mine in staging && staging[mine] == map[]
      modifies `staging
      ensures mine in staging && staging == old(staging)[mine := staging[mine]]
      ensures written <==> writes > |outputs|
      ensures written ==> staging[mine] == Snapshot(outputs, manifest, tools)
    {
      written := WriteOutputs(mine, outputs, writes);
      if writes <= |outputs| {
        return false;
      }
      Write(mine, MANIFEST, tools.dumps(manifest));
    }

    /** `os.rename`, which replaces no directory that has files in it. */
    method Rename(mine: nat)
      requires mine in staging && destination.None?
      modifies this
      ensures destination == Some(old(staging)[mine]) && staging == old(staging) - {mine}
    {
      destination, staging := Some(staging[mine]), staging - {mine};
    }

    method Clean(mine: nat)
      modifies `staging
      ensures staging == old(staging) - {mine}
    {
      if mine in staging {
        staging := staging - {mine};
      }
    }

    /** The part of `_publish` that found no destination. */
    method PublishNew(mine: nat, outputs: Dir, manifest: Manifest, tools: Tools, world: World)
      returns (r: Result<(), PublishError>)
      requires mine !in staging && destination.None? && world.rival != Some(map[])
      modifies this
      ensures staging == old(staging)
      ensures world.writes <= |outputs| ==> r == Failure(DiskError) && destination == None
      ensures world.writes > |outputs| && world.rival.Some? ==>
        destination == world.rival && Verdict(destination.value, manifest, tools, r)
      ensures world.writes > |outputs| && world.rival.None? ==>
        if world.renameFails then r == Failure(DiskError) && destination == None
        else r.Success? && destination == Some(Snapshot(outputs, manifest, tools))
    {
      staging := staging[mine := map[]];
      var written := Stage(mine, outputs, manifest, tools, world.writes);
      NothingLeftBehind(old(staging), mine, map[], staging[mine]);
      if written && world.rival.Some? {
        destination := world.rival;
      }
      if !written {
        r := Failure(DiskError);
      } else if destination.Some? {
        r := VerifyExisting(destination.value, manifest, tools);
      } else if world.renameFails {
        r := Failure(DiskError);
      } else {
        Rename(mine);
        r := Success(());
      }
      Clean(mine);
    }

    /** `_publish`, staging under the name `mine` that `mkdtemp` found free. The destination is written by
      * one rename or not at all, nothing is left behind, and a normal return is a promise about it. */
    method Publish(mine: nat, outputs: Dir, manifest: Manifest, tools: Tools, world: World)
      returns (r: Result<(), PublishError>)
      requires mine !in staging && Sound(tools) && Lists(manifest, outputs, tools) && MANIFEST !in outputs
      requires world.rival != Some(map[])
      modifies this
      ensures staging == old(staging)
      ensures old(destination).Some? ==>
        destination == old(destination) && Verdict(destination.value, manifest, tools, r)
      ensures old(destination).None? && world.writes <= |outputs| ==> r == Failure(DiskError) && destination == None
      ensures old(destination).None? && world.writes > |outputs| && world.rival.Some? ==>
        destination == world.rival && Verdict(destination.value, manifest, tools, r)
      ensures old(destination).None? && world.writes > |outputs| && world.rival.None? ==>
        if world.renameFails then r == Failure(DiskError) && destination == None
        else r.Success? && destination == Some(Snapshot(outputs, manifest, tools))
      ensures r.Success? ==> destination.Some? && Holds(destination.value, outputs, manifest, tools)
    {
      if destination.Some? {
        r := VerifyExisting(destination.value, manifest, tools);
        AcceptedExactlyWhenItHoldsTheOutputs(destination.value, outputs, manifest, tools, r);
      } else {
        r := PublishNew(mine, outputs, manifest, tools, world);
        ASnapshotHoldsItsOutputs(outputs, manifest, tools);
        if world.writes > |outputs| && world.rival.Some? {
          AcceptedExactlyWhenItHoldsTheOutputs(destination.value, outputs, manifest, tools, r);
        }
      }
    }
  }
}
