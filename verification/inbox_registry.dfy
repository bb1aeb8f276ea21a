/**
  The inbox registry: a map from inbox subject to a bucket of logical
  subscriptions, with register, deliver and remove, and the adapter that
  forwards the shared inbox subscription's frames to it.

  Bucket instances are objects in the source; here each lives in `instances`
  under an identity, and the subject map points at identities, so "the same
  instance" is identity equality. Operations run one at a time.
 */
module InboxRegistry {
  import opened Wrappers
  import opened Numerics

  /** A logical subscription: its identity and the subject it listens on. */
  datatype Sub = Sub(handle: nat, subject: string)

  /** One inbound frame as the transport hands it over. */
  datatype Msg = Msg(subject: string, replyTo: Option<string>, headers: Option<seq<byte>>, payload: seq<byte>)

  /** A bucket instance: the subject it was created for and its subscriptions. */
  datatype Bucket = Bucket(subject: string, subs: set<Sub>)

  type InstanceId = nat

  datatype Registry = Registry(
    bySubject: map<string, InstanceId>,
    instances: map<InstanceId, Bucket>,
    nextInstance: InstanceId)

  /**
    Every subject points at an existing bucket created for it, identities are
    allocated below `nextInstance`, and a bucket only holds subscriptions to
    its own subject.
   */
  predicate Valid(r: Registry) {
    && (forall s :: s in r.bySubject ==>
          r.bySubject[s] in r.instances && r.instances[r.bySubject[s]].subject == s)
    && (forall id :: id in r.instances ==> id < r.nextInstance)
    && (forall id, x :: id in r.instances && x in r.instances[id].subs ==> x.subject == r.instances[id].subject)
  }

  function EmptyRegistry(): (r: Registry)
    ensures Valid(r) && r.bySubject == map[]
  {
    Registry(map[], map[], 0)
  }

  /** What the registry means: the subscriptions reachable from each subject. */
  function View(r: Registry): (v: map<string, set<Sub>>)
    requires Valid(r)
    ensures v.Keys == r.bySubject.Keys
  {
    map s | s in r.bySubject :: r.instances[r.bySubject[s]].subs
  }

  // Reference definitions on the abstract view.

  function Members(v: map<string, set<Sub>>, subject: string): set<Sub> {
    if subject in v then v[subject] else {}
  }

  function AbstractRegister(v: map<string, set<Sub>>, sub: Sub): map<string, set<Sub>> {
    v[sub.subject := Members(v, sub.subject) + {sub}]
  }

  function AbstractRemove(v: map<string, set<Sub>>, sub: Sub): map<string, set<Sub>> {
    if sub.subject !in v then v
    else
      var rest := v[sub.subject] - {sub};
      if rest == {} then v - {sub.subject} else v[sub.subject := rest]
  }

  /** Allocates a fresh bucket instance holding only `sub` and points its subject at it. */
  function Install(r: Registry, sub: Sub): (r': Registry)
    requires Valid(r)
    ensures Valid(r')
    ensures sub.subject in r'.bySubject && r'.bySubject[sub.subject] !in r.instances
    ensures r'.instances[r'.bySubject[sub.subject]].subs == {sub}
    ensures forall s :: s in r.bySubject && s != sub.subject ==> s in r'.bySubject && r'.bySubject[s] == r.bySubject[s]
    ensures r'.bySubject.Keys == r.bySubject.Keys + {sub.subject}
    ensures forall id :: id in r.instances ==> id in r'.instances && r'.instances[id] == r.instances[id]
  {
    var id := r.nextInstance;
    Registry(r.bySubject[sub.subject := id], r.instances[id := Bucket(sub.subject, {sub})], id + 1)
  }

  /** Installing a fresh instance registers `sub` when its subject had no member. */
  lemma InstallRegisters(r: Registry, sub: Sub)
    requires Valid(r) && Members(View(r), sub.subject) == {}
    ensures View(Install(r, sub)) == AbstractRegister(View(r), sub)
  {
    var v', a := View(Install(r, sub)), AbstractRegister(View(r), sub);
    assert v'.Keys == a.Keys;
    forall s | s in v'
      ensures v'[s] == a[s]
    {
    }
  }

  /**
    Adds `sub` to the bucket of its subject. A missing bucket, or one found
    empty (possibly being retired by a concurrent removal), is not mutated:
    a fresh instance holding only `sub` replaces it in the subject map.
   */
  function Register(r: Registry, sub: Sub): (r': Registry)
    requires Valid(r)
    ensures Valid(r')
    ensures View(r') == AbstractRegister(View(r), sub)
    ensures sub.subject in r.bySubject && r.instances[r.bySubject[sub.subject]].subs != {} ==>
      r'.bySubject[sub.subject] == r.bySubject[sub.subject]
    ensures sub.subject !in r.bySubject || r.instances[r.bySubject[sub.subject]].subs == {} ==>
      r'.bySubject[sub.subject] !in r.instances && r'.instances[r'.bySubject[sub.subject]].subs == {sub}
    ensures forall id :: id in r.instances && id != r'.bySubject[sub.subject] ==>
      id in r'.instances && r'.instances[id] == r.instances[id]
    ensures forall s :: s in r.bySubject && s != sub.subject ==>
      s in r'.bySubject && r'.bySubject[s] == r.bySubject[s]
  {
    if sub.subject !in r.bySubject then
      InstallRegisters(r, sub);
      Install(r, sub)
    else
      var id := r.bySubject[sub.subject];
      var bucket := r.instances[id];
      if bucket.subs == {} then
        InstallRegisters(r, sub);
        Install(r, sub)
      else
        var r' := r.(instances := r.instances[id := bucket.(subs := bucket.subs + {sub})]);
        assert View(r') == AbstractRegister(View(r), sub);
        r'
  }

  /** The outcome of delivering one frame: who received it, what they received, whether a warning was logged. */
  datatype Delivery = Delivery(invoked: set<Sub>, msg: Msg, warned: bool)

  /**
    Delivers a frame to every subscription in its subject's bucket. An
    unknown subject is not an error: nothing is invoked and a warning is logged.
   */
  function ReceivedAsync(r: Registry, msg: Msg): (d: Delivery)
    requires Valid(r)
    ensures d.msg == msg
    ensures d.warned <==> msg.subject !in View(r)
    ensures d.invoked == Members(View(r), msg.subject)
    ensures forall x :: x in d.invoked ==> x.subject == msg.subject
  {
    if msg.subject !in r.bySubject then
      Delivery({}, msg, true)
    else
      Delivery(r.instances[r.bySubject[msg.subject]].subs, msg, false)
  }

  /** The shared inbox subscription's entry point: forwards the frame's four parts unchanged. */
  function ReceiveAsync(r: Registry, subject: string, replyTo: Option<string>, headers: Option<seq<byte>>, payload: seq<byte>): (d: Delivery)
    requires Valid(r)
    ensures d.msg.subject == subject && d.msg.replyTo == replyTo
    ensures d.msg.headers == headers && d.msg.payload == payload
    ensures d == ReceivedAsync(r, Msg(subject, replyTo, headers, payload))
  {
    ReceivedAsync(r, Msg(subject, replyTo, headers, payload))
  }

  /** Drops the subject's key only if it still points at instance `id`. */
  function TryRemoveInstance(r: Registry, subject: string, id: InstanceId): (r': Registry)
    requires Valid(r)
    ensures Valid(r')
    ensures r'.instances == r.instances
    ensures subject in r.bySubject && r.bySubject[subject] == id ==> r'.bySubject == r.bySubject - {subject}
    ensures !(subject in r.bySubject && r.bySubject[subject] == id) ==> r' == r
  {
    if subject in r.bySubject && r.bySubject[subject] == id then
      r.(bySubject := r.bySubject - {subject})
    else
      r
  }

  /** Replacing the subscriptions of instance `id` changes the view of the one subject that points at it, and no other. */
  lemma ViewOfMutated(r: Registry, id: InstanceId, subs: set<Sub>)
    requires Valid(r) && id in r.instances
    requires forall x :: x in subs ==> x.subject == r.instances[id].subject
    ensures var m := r.(instances := r.instances[id := r.instances[id].(subs := subs)]);
      && Valid(m)
      && (var subject := r.instances[id].subject;
          if subject in r.bySubject && r.bySubject[subject] == id
          then View(m) == View(r)[subject := subs]
          else View(m) == View(r))
  {
    var m := r.(instances := r.instances[id := r.instances[id].(subs := subs)]);
    var subject := r.instances[id].subject;
    var expected := if subject in r.bySubject && r.bySubject[subject] == id then View(r)[subject := subs] else View(r);
    assert View(m).Keys == expected.Keys;
    forall s | s in View(m)
      ensures View(m)[s] == expected[s]
    {
    }
  }

  /** The registry after a removal and whether a warning was logged. */
  datatype Removal = Removal(registry: Registry, warned: bool)

  /**
    The locked section of a removal, on the bucket instance `id` the removal
    looked up for the subscription's subject, which may no longer be the one
    the subject map points at: take `sub` out of that instance and, if it is
    left empty, drop the subject's key only while it still points at `id`.
   */
  function RemoveFromInstance(r: Registry, sub: Sub, id: InstanceId): (o: Removal)
    requires Valid(r) && id in r.instances && r.instances[id].subject == sub.subject
    ensures Valid(o.registry)
    ensures o.warned <==> sub !in r.instances[id].subs
    ensures sub.subject in r.bySubject && r.bySubject[sub.subject] == id ==>
      View(o.registry) == AbstractRemove(View(r), sub)
    ensures !(sub.subject in r.bySubject && r.bySubject[sub.subject] == id) ==>
      View(o.registry) == View(r)
    ensures o.registry.instances == r.instances[id := r.instances[id].(subs := r.instances[id].subs - {sub})]
    ensures o.registry.nextInstance == r.nextInstance
    ensures o.registry.bySubject == r.bySubject
      || (r.instances[id].subs - {sub} == {} && o.registry.bySubject == r.bySubject - {sub.subject})
  {
    var bucket := r.instances[id];
    var rest := bucket.subs - {sub};
    var mutated := r.(instances := r.instances[id := bucket.(subs := rest)]);
    ViewOfMutated(r, id, rest);
    if rest == {} then
      var retired := TryRemoveInstance(mutated, sub.subject, id);
      assert View(retired) == View(mutated) - {sub.subject} || View(retired) == View(mutated);
      Removal(retired, sub !in bucket.subs)
    else
      Removal(mutated, sub !in bucket.subs)
  }

  /**
    Removes `sub` from the bucket of its subject. An unknown subject changes
    nothing and logs a warning; so does a subscription missing from its bucket.
   */
  function RemoveAsync(r: Registry, sub: Sub): (o: Removal)
    requires Valid(r)
    ensures Valid(o.registry)
    ensures View(o.registry) == AbstractRemove(View(r), sub)
    ensures o.warned <==> sub.subject !in View(r) || sub !in View(r)[sub.subject]
    ensures sub.subject !in r.bySubject ==> o.registry == r
    ensures sub.subject in r.bySubject ==>
      var id := r.bySubject[sub.subject];
      o.registry.instances == r.instances[id := r.instances[id].(subs := r.instances[id].subs - {sub})]
    ensures forall s :: s in r.bySubject && s != sub.subject ==>
      s in o.registry.bySubject && o.registry.bySubject[s] == r.bySubject[s]
  {
    if sub.subject !in r.bySubject then
      Removal(r, true)
    else
      RemoveFromInstance(r, sub, r.bySubject[sub.subject])
  }

  /** A registered subscription receives the next frame on its subject. */
  lemma RegisterThenDeliver(r: Registry, sub: Sub, msg: Msg)
    requires Valid(r) && msg.subject == sub.subject
    ensures var d := ReceivedAsync(Register(r, sub), msg);
      sub in d.invoked && !d.warned
  {
  }

  /** Registering the same subscription twice is registering it once. */
  lemma RegisterIdempotent(r: Registry, sub: Sub)
    requires Valid(r)
    ensures Register(Register(r, sub), sub) == Register(r, sub)
  {
    var r1 := Register(r, sub);
    var id := r1.bySubject[sub.subject];
    assert sub in r1.instances[id].subs;
    var bucket := r1.instances[id];
    assert r1.instances[id := bucket.(subs := bucket.subs + {sub})] == r1.instances;
  }

  /** After a removal, no frame on any subject reaches the removed subscription. */
  lemma RemoveThenDeliver(r: Registry, sub: Sub, msg: Msg)
    requires Valid(r)
    ensures sub !in ReceivedAsync(RemoveAsync(r, sub).registry, msg).invoked
  {
  }

  /** Register and remove touch no subject but the subscription's own. */
  lemma OtherSubjectsUnaffected(r: Registry, sub: Sub, subject: string)
    requires Valid(r) && subject != sub.subject
    ensures Members(View(Register(r, sub)), subject) == Members(View(r), subject)
    ensures Members(View(RemoveAsync(r, sub).registry), subject) == Members(View(r), subject)
  {
  }

  /** No subject points at an empty bucket: a subject is present exactly while something is registered under it. */
  predicate NoEmptyBuckets(r: Registry)
    requires Valid(r)
  {
    forall s :: s in View(r) ==> View(r)[s] != {}
  }

  /** Operations run one at a time never leave a subject pointing at an empty bucket. */
  lemma NoEmptyBucketsPreserved(r: Registry, sub: Sub)
    requires Valid(r) && NoEmptyBuckets(r)
    ensures NoEmptyBuckets(Register(r, sub))
    ensures NoEmptyBuckets(RemoveAsync(r, sub).registry)
  {
    var v := View(r);
    var v1, v2 := View(Register(r, sub)), View(RemoveAsync(r, sub).registry);
    forall s | s in v1
      ensures v1[s] != {}
    {
      if s == sub.subject {
        assert sub in v1[s];
      }
    }
    forall s | s in v2
      ensures v2[s] != {}
    {
    }
  }

  /**
    Removal undoes registration: registering a subscription that was not
    registered and then removing it leaves the registry meaning what it did.
   */
  lemma RemoveUndoesRegister(r: Registry, sub: Sub)
    requires Valid(r) && NoEmptyBuckets(r)
    requires sub !in Members(View(r), sub.subject)
    ensures View(RemoveAsync(Register(r, sub), sub).registry) == View(r)
    ensures !RemoveAsync(Register(r, sub), sub).warned
  {
    var v := View(r);
    var after := AbstractRemove(AbstractRegister(v, sub), sub);
    if sub.subject in v {
      assert v[sub.subject] != {};
      assert AbstractRegister(v, sub)[sub.subject] - {sub} == v[sub.subject];
      assert after == v;
    } else {
      assert AbstractRegister(v, sub)[sub.subject] - {sub} == {};
      assert after == v;
    }
  }

  /**
    A removal that observed a bucket instance which has since been retired and
    replaced never deletes the replacement: the instance check on the final
    key removal protects a registration that installed a fresh bucket.
   */
  lemma StaleRemoveKeepsFreshBucket(r: Registry, sub: Sub, other: Sub)
    requires Valid(r) && sub.subject in r.bySubject
    requires other.subject == sub.subject && other != sub
    requires View(r)[sub.subject] == {sub}
    ensures var id := r.bySubject[sub.subject];
      var removed := RemoveAsync(r, sub).registry;
      var reregistered := Register(removed, other);
      var stale := RemoveFromInstance(reregistered, sub, id);
      && sub.subject !in removed.bySubject
      && reregistered.bySubject[sub.subject] != id
      && stale.warned
      && ReceivedAsync(stale.registry, Msg(sub.subject, None, None, [])).invoked == {other}
  {
    var id := r.bySubject[sub.subject];
    var removed := RemoveAsync(r, sub).registry;
    assert removed.instances[id].subs == {};
  }

  /**
    Fan-out from an empty registry: two subscriptions on one subject both
    receive a frame; after one of them is removed only the other does.
   */
  lemma FanOut(s1: Sub, s2: Sub, msg: Msg)
    requires s1 != s2 && s1.subject == s2.subject == msg.subject
    ensures var r := Register(Register(EmptyRegistry(), s1), s2);
      && ReceivedAsync(r, msg).invoked == {s1, s2}
      && ReceivedAsync(RemoveAsync(r, s1).registry, msg).invoked == {s2}
  {
  }
}
