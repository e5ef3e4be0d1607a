/** The read-through store of engine/actor.go: getActorInfoWithCallback with its
    three deferred steps (save, inject images, validate), run in reverse order of
    their registration.  Records live on the heap: injection changes the record the
    caller receives, never the row saved before it. */
module ActorStore {
  import opened Options

  datatype Record = Record(id: string, name: string, provider: string, homepage: string, rest: string,
                           images: seq<string>)
  {
    predicate IsValid() {
      id != "" && name != "" && provider != "" && homepage != ""
    }
  }

  /** What a provider answers. */
  datatype Answer = Got(record: Record) | Failed

  datatype Error = NoError | ProviderError | IncompleteMetadata

  datatype Provider = Provider(name: string, japanese: bool)

  const GFRIENDS := "Gfriends"

  class ActorInfo {
    const id: string
    const name: string
    const provider: string
    const homepage: string
    const rest: string
    var images: seq<string>

    constructor (r: Record)
      ensures Value() == r
    {
      id, name, provider, homepage, rest, images := r.id, r.name, r.provider, r.homepage, r.rest, r.images;
    }

    function Value(): Record
      reads this
    {
      Record(id, name, provider, homepage, rest, images)
    }
  }

  /** The images the gfriends provider has for a name. */
  type ImageSource = string -> Option<seq<string>>

  /** The images injected in front of a record's own. */
  function Injected(gfriends: ImageSource, p: Provider, r: Record): seq<string> {
    if p.japanese && gfriends(r.name).Some? then gfriends(r.name).value else []
  }

  class Engine {
    /** Rows by provider and id. */
    var db: map<(string, string), Record>
    /** Every record a provider has returned so far. */
    ghost var returned: set<Record>
    const fold: string -> string
    const gfriends: ImageSource

    /** The store holds only valid records, under their own keys, exactly as a provider
        returned them. */
    ghost predicate Valid()
      reads this
    {
      forall k :: k in db ==> db[k].IsValid() && k == (db[k].provider, db[k].id) && db[k] in returned
    }

    constructor (fold: string -> string, gfriends: ImageSource)
      ensures Valid() && db == map[]
    {
      this.fold, this.gfriends, db, returned := fold, gfriends, map[], {};
    }

    predicate Matches(k: (string, string), p: Provider, id: string) {
      k.0 == p.name && fold(k.1) == fold(id)
    }

    /** Any row of the provider whose id equals the wanted one up to case. */
    method Query(p: Provider, id: string) returns (row: Option<Record>)
      ensures row.Some? ==> exists k :: k in db && Matches(k, p, id) && db[k] == row.value
      ensures row.None? ==> forall k :: k in db ==> !Matches(k, p, id)
      ensures row.Some? <==> exists k :: k in db && k.0 == p.name && fold(k.1) == fold(id)
    {
      if k :| k in db && Matches(k, p, id) {
        return Some(db[k]);
      }
      return None;
    }

    method Inject(p: Provider, info: ActorInfo)
      modifies info
      ensures info.images == Injected(gfriends, p, old(info.Value())) + old(info.images)
      // only Japanese providers, and only a name that has images there
      ensures !p.japanese || gfriends(info.name).None? ==> info.images == old(info.images)
      ensures p.japanese && gfriends(info.name).Some? ==>
                info.images == gfriends(info.name).value + old(info.images)
    {
      if p.japanese {
        var found := gfriends(info.name);
        if found.Some? && |found.value| > 0 {
          info.images := found.value + info.images;
        }
      }
    }

    /** answer is what the callback returns if it is called. */
    method GetActorInfo(p: Provider, id: string, lazy: bool, answer: Answer)
      returns (info: ActorInfo?, err: Error, ghost hit: Option<Record>)
      requires Valid()
      modifies this`db, this`returned
      ensures Valid()
      ensures info != null ==> fresh(info)
      // the provider is called unless the store has a row, and returns nothing else
      ensures returned == old(returned) + if hit.None? && answer.Got? then {answer.record} else {}
      // success always means a valid record
      ensures err == NoError ==> info != null && info.Value().IsValid()
      ensures err == NoError ==> info.id != "" && info.name != "" && info.provider != "" && info.homepage != ""
      // a hit is a row found lazily; it leaves the store alone and comes with the
      // external images followed once by the stored ones
      ensures hit.Some? ==> lazy && p.name != "Gfriends" && hit.value.IsValid()
                            && exists k :: k in old(db) && Matches(k, p, id) && old(db)[k] == hit.value
      ensures hit.Some? ==> db == old(db) && err == NoError
                            && info.Value() == hit.value.(images := Injected(gfriends, p, hit.value) + hit.value.images)
      ensures hit.None? && lazy && p.name != "Gfriends" ==>
                !exists k :: k in old(db) && Matches(k, p, id)
      // otherwise the provider's answer decides, is saved as it came, and then injected
      ensures hit.None? ==> (answer.Failed? <==> info == null) && (answer.Failed? <==> err == ProviderError)
      ensures hit.None? && answer.Got? ==> (err == NoError <==> answer.record.IsValid())
      ensures hit.None? && answer.Got? ==>
                var extra := if p.name == "Gfriends" then [] else Injected(gfriends, p, answer.record);
                info.Value() == answer.record.(images := extra + answer.record.images)
      // providers in other languages get nothing injected
      ensures !p.japanese && info != null && hit.Some? ==> info.Value() == hit.value
      ensures !p.japanese && info != null && hit.None? && answer.Got? ==> info.Value() == answer.record
      ensures hit.None? ==>
                db == if answer.Got? && answer.record.IsValid() && p.name != "Gfriends"
                      then old(db)[(answer.record.provider, answer.record.id) := answer.record] else old(db)
    {
      hit := None;
      if p.name == GFRIENDS {
        info, err := Fetch(answer);
        if info != null {
          assert [] + info.images == info.images;
        }
        err := Check(info, err);
        return;
      }
      if lazy {
        var row := Query(p, id);
        if row.Some? && row.value.IsValid() {
          hit := row;
          info := new ActorInfo(row.value);
          Inject(p, info);
          err := Check(info, NoError);
          return;
        }
      }
      info, err := Fetch(answer);
      if err == NoError && info.Value().IsValid() {
        db := db[(info.provider, info.id) := info.Value()];
      }
      if err == NoError {
        Inject(p, info);
      }
      err := Check(info, err);
    }

    /** The provider's call: a new record each time. */
    method Fetch(answer: Answer) returns (info: ActorInfo?, err: Error)
      requires Valid()
      modifies this`returned
      ensures Valid() && returned == old(returned) + if answer.Got? then {answer.record} else {}
      ensures answer.Failed? ==> info == null && err == ProviderError
      ensures answer.Got? ==> info != null && fresh(info) && info.Value() == answer.record && err == NoError
    {
      match answer
      case Failed => return null, ProviderError;
      case Got(record) =>
        returned := returned + {record};
        var r := new ActorInfo(record);
        return r, NoError;
    }

    /** The validation registered first and run last. */
    method Check(info: ActorInfo?, err: Error) returns (e: Error)
      ensures e == if err == NoError && (info == null || !info.Value().IsValid()) then IncompleteMetadata else err
    {
      if err == NoError && (info == null || !info.Value().IsValid()) {
        return IncompleteMetadata;
      }
      return err;
    }
  }

  datatype Request = Request(p: Provider, id: string, lazy: bool, answer: Answer)

  /** A row of the store is one it had before, or a valid answer to one of the first n
      requests, as the provider gave it. */
  ghost predicate Original(before: map<(string, string), Record>, requests: seq<Request>, n: nat, row: Record)
    requires n <= |requests|
  {
    || (exists k :: k in before && before[k] == row)
    || (exists i :: 0 <= i < n && requests[i].answer == Got(row) && row.IsValid())
  }

  /** What the providers returned to the first n requests. */
  ghost predicate Returned(before: set<Record>, requests: seq<Request>, n: nat, row: Record)
    requires n <= |requests|
  {
    row in before || exists i :: 0 <= i < n && requests[i].answer == Got(row)
  }

  /** Over any run of lazy and forced gets, however often images were injected, the
      store holds only original rows, and a final lazy get of a stored actor returns
      one of them with the external images in front once. */
  method RunThenGet(e: Engine, requests: seq<Request>, p: Provider, id: string)
    returns (info: ActorInfo?, err: Error, ghost hit: Option<Record>)
    requires e.Valid() && p.name != "Gfriends"
    modifies e
    ensures e.Valid()
    ensures forall k :: k in e.db ==> Original(old(e.db), requests, |requests|, e.db[k])
    ensures forall r :: r in e.returned ==> Returned(old(e.returned), requests, |requests|, r)
    ensures hit.Some? ==> Original(old(e.db), requests, |requests|, hit.value) && info != null
                          && info.Value() == hit.value.(images := Injected(e.gfriends, p, hit.value) + hit.value.images)
    ensures hit.None? ==> info == null && err == ProviderError
  {
    for i := 0 to |requests|
      invariant e.Valid()
      invariant forall k :: k in e.db ==> Original(old(e.db), requests, i, e.db[k])
      invariant forall r :: r in e.returned ==> Returned(old(e.returned), requests, i, r)
    {
      var r := requests[i];
      ghost var db, returned := e.db, e.returned;
      var _, _, _ := e.GetActorInfo(r.p, r.id, r.lazy, r.answer);
      forall k | k in e.db ensures Original(old(e.db), requests, i + 1, e.db[k]) {
        assert r.answer == Got(e.db[k]) || (k in db && Original(old(e.db), requests, i, db[k]));
      }
      forall x | x in e.returned ensures Returned(old(e.returned), requests, i + 1, x) {
        assert x in returned ==> Returned(old(e.returned), requests, i, x);
      }
    }
    info, err, hit := e.GetActorInfo(p, id, true, Failed);
  }

  /** A forced get followed by a lazy one: the second get hits, and if no other stored
      row of the provider has that id up to case it returns what the first one saved. */
  method RefreshThenRead(e: Engine, p: Provider, id: string, record: Record)
    returns (info: ActorInfo?, err: Error, ghost hit: Option<Record>)
    requires e.Valid() && p.name != "Gfriends"
    requires record.IsValid() && record.provider == p.name && e.fold(record.id) == e.fold(id)
    modifies e
    ensures e.Valid() && hit.Some? && err == NoError && info != null
    ensures info.Value() == hit.value.(images := Injected(e.gfriends, p, hit.value) + hit.value.images)
    ensures (forall k :: k in old(e.db) && k.0 == p.name && e.fold(k.1) == e.fold(id) ==> k.1 == record.id) ==>
              hit.value == record
    ensures !p.japanese || e.gfriends(hit.value.name).None? ==> info.Value() == hit.value
    ensures p.japanese && e.gfriends(hit.value.name).Some? ==>
              info.images == e.gfriends(hit.value.name).value + hit.value.images
  {
    var _, _, _ := e.GetActorInfo(p, id, false, Got(record));
    assert (p.name, record.id) in e.db && e.Matches((p.name, record.id), p, id);
    info, err, hit := e.GetActorInfo(p, id, true, Failed);
  }
}
