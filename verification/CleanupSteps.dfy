/** The cleanup operation's loops over the two stores, cut short after any number of storage calls. */
module CleanupSteps {
  import opened UploadStep
  import opened BackupStore

  class Stores {
    var json: Json
    const hexdigests: HexDigestStorage
    /** Storage calls that still succeed; the one after them raises and ends the operation. */
    var calls: nat

    constructor (json: Json, hexdigests: HexDigestStorage, calls: nat)
      ensures this.json == json && this.hexdigests == hexdigests && this.calls == calls
    {
      this.json, this.hexdigests, this.calls := json, hexdigests, calls;
    }

    /** Deletes the listed manifests that are not kept. */
    method DeleteBackupManifests(all: set<Name>, kept: set<Name>) returns (done: bool)
      modifies this`json, this`calls
      ensures forall n :: n in json ==> n in old(json) && json[n] == old(json)[n]
      ensures forall n :: n in old(json) && n !in all - kept ==> n in json
      ensures done ==> json == old(json) - (all - kept)
    {
      var deleted := all - kept;
      while deleted != {}
        invariant deleted <= all - kept && json == old(json) - (all - kept - deleted)
        decreases deleted
      {
        var backup :| backup in deleted;
        if calls == 0 {
          return false;
        }
        calls := calls - 1;
        json := json - {backup};
        deleted := deleted - {backup};
      }
      return true;
    }

    /** Reads the kept manifests and crosses out what they refer to. */
    method DiscardKept(kept: set<Name>, listed: set<string>) returns (done: bool, extra: set<string>)
      requires kept <= json.Keys
      modifies this`calls
      ensures done ==> forall d :: d in extra <==> d in listed && !Referenced(KeptOnly(json, kept), d)
    {
      extra := listed;
      var pending := kept;
      while pending != {}
        invariant pending <= kept
        invariant forall d :: d in extra <==> d in listed && !Referenced(KeptOnly(json, kept - pending), d)
        decreases pending
      {
        var name :| name in pending;
        if calls == 0 {
          return false, {};
        }
        calls := calls - 1;
        CrossOut(json, kept, pending, name);
        extra := extra - json[name].digests;
        pending := pending - {name};
      }
      assert kept - pending == kept;
      return true, extra;
    }

    /** Deletes every listed digest that no kept manifest refers to. */
    method DeleteDanglingHexdigests(kept: set<Name>) returns (done: bool)
      requires kept <= json.Keys
      modifies this`calls, hexdigests
      ensures hexdigests.digests <= old(hexdigests.digests)
      ensures forall d :: d in old(hexdigests.digests) && Referenced(KeptOnly(json, kept), d) ==> d in hexdigests.digests
      ensures done ==> forall d :: d in hexdigests.digests ==> Referenced(KeptOnly(json, kept), d)
    {
      if calls == 0 {
        return false;
      }
      calls := calls - 1;
      var listed := hexdigests.ListHexdigests();
      var extra;
      done, extra := DiscardKept(kept, listed);
      if !done {
        return;
      }
      ghost var marked := extra;
      while extra != {}
        invariant extra <= marked
        invariant hexdigests.digests == listed - (marked - extra)
        decreases extra
      {
        var hexdigest :| hexdigest in extra;
        if calls == 0 {
          return false;
        }
        calls := calls - 1;
        hexdigests.DeleteHexdigest(hexdigest);
        extra := extra - {hexdigest};
      }
    }

    /** The whole operation. Wherever it stops the manifests stay complete; when it ends the stores hold
        the kept manifests and exactly what they refer to. */
    method Cleanup(deltas: bool, kept: set<Name>) returns (done: bool)
      requires Present(json, hexdigests.digests) && kept <= json.Keys
      requires deltas || forall n :: n in json ==> n.Base?
      modifies this, hexdigests
      ensures Present(json, hexdigests.digests)
      ensures forall n :: n in kept ==> n in json && json[n] == old(json)[n]
      ensures done ==> json.Keys == kept && forall d :: d in hexdigests.digests <==> Referenced(json, d)
    {
      var all := set n | n in json && (n.Base? || deltas);
      done := DeleteBackupManifests(all, kept);
      if !done {
        return;
      }
      assert json.Keys == kept;
      assert KeptOnly(json, kept) == json;
      done := DeleteDanglingHexdigests(kept);
    }
  }

  ghost function KeptOnly(json: Json, kept: set<Name>): Json {
    map n | n in json && n in kept :: json[n]
  }

  lemma CrossOut(json: Json, kept: set<Name>, pending: set<Name>, name: Name)
    requires pending <= kept <= json.Keys && name in pending
    ensures forall d :: Referenced(KeptOnly(json, kept - (pending - {name})), d) <==>
                        Referenced(KeptOnly(json, kept - pending), d) || d in json[name].digests
  {
    var before, after := KeptOnly(json, kept - pending), KeptOnly(json, kept - (pending - {name}));
    forall d ensures Referenced(after, d) <==> Referenced(before, d) || d in json[name].digests {
      if Referenced(before, d) {
        var n :| n in before && d in before[n].digests;
        assert n in after;
      }
      if Referenced(after, d) {
        var n :| n in after && d in after[n].digests;
        assert n != name ==> n in before;
      }
      assert name in after && after[name] == json[name];
    }
  }
}
