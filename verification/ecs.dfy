/**
 The system registry of the ECS (Include/ECS/system.hpp, types.hpp): each
 registered system type has a component signature and the set of entities
 whose own signature contains it. Systems are keyed by their type name;
 the system objects themselves are left out, only their entity sets and
 signatures are kept. A failed `assert` is a Failure.
 */
module Ecs {
  import opened Base

  /** MAX_COMPONENTS. */
  const MaxComponents: nat := 32

  /** Entity, a uint32 id. */
  type Entity = U32

  /** n cleared bits. */
  function NoBits(n: nat): (s: seq<bool>)
    ensures |s| == n && forall i :: 0 <= i < n ==> !s[i]
  {
    if n == 0 then [] else [false] + NoBits(n - 1)
  }

  /** std::bitset<MAX_COMPONENTS>: bit i says whether component type i is present. */
  type Signature = s: seq<bool> | |s| == MaxComponents witness NoBits(MaxComponents)

  /** A default-constructed bitset. */
  const EmptySignature: Signature := NoBits(MaxComponents)

  /** bitset operator&. */
  function And(a: Signature, b: Signature): (r: Signature)
    ensures forall i :: 0 <= i < MaxComponents ==> (r[i] <==> a[i] && b[i])
  {
    seq(MaxComponents, i requires 0 <= i < MaxComponents => a[i] && b[i])
  }

  /** The test of EntitySignatureChanged: `(entity & system) == system`. */
  predicate Matches(entity: Signature, system: Signature) {
    And(entity, system) == system
  }

  /** The test holds exactly when every component the system needs is one
      the entity has. */
  lemma MatchesIsSubset(entity: Signature, system: Signature)
    ensures Matches(entity, system) <==> forall i :: 0 <= i < MaxComponents ==> (system[i] ==> entity[i])
  {
    if forall i :: 0 <= i < MaxComponents ==> (system[i] ==> entity[i]) {
      assert And(entity, system) == system;
    }
  }

  datatype System = System(entities: set<Entity>, signature: Signature)

  type SystemName = string

  /** mSystems. */
  type Systems = map<SystemName, System>

  datatype EcsError = RegisteredTwice | UsedBeforeRegistered

  /** SystemManager::RegisterSystem: a fresh system with no entities and an
      empty signature. */
  function RegisterSystem(ss: Systems, name: SystemName): (r: Result<Systems, EcsError>)
    ensures r.Failure? <==> name in ss
    ensures r.Success? ==> r.value.Keys == ss.Keys + {name}
    ensures r.Success? ==> r.value[name] == System({}, EmptySignature)
    ensures r.Success? ==> forall n :: n in ss ==> r.value[n] == ss[n]
  {
    if name in ss then Failure(RegisteredTwice) else Success(ss[name := System({}, EmptySignature)])
  }

  /** SystemManager::SetSignature: the system's entity set is emptied. */
  function SetSignature(ss: Systems, name: SystemName, signature: Signature): (r: Result<Systems, EcsError>)
    ensures r.Failure? <==> name !in ss
    ensures r.Success? ==> r.value.Keys == ss.Keys
    ensures r.Success? ==> r.value[name] == System({}, signature)
    ensures r.Success? ==> forall n :: n in ss && n != name ==> r.value[n] == ss[n]
  {
    if name !in ss then Failure(UsedBeforeRegistered) else Success(ss[name := System({}, signature)])
  }

  /** A system can have its signature set once it is registered, and only
      then; registering the same name again fails. */
  lemma RegisterThenSetSignature(ss: Systems, name: SystemName, signature: Signature)
    requires name !in ss
    ensures SetSignature(ss, name, signature).Failure?
    ensures var reg := RegisterSystem(ss, name);
      && reg.Success?
      && RegisterSystem(reg.value, name).Failure?
      && SetSignature(reg.value, name, signature) == Success(ss[name := System({}, signature)])
  {
    var reg := RegisterSystem(ss, name).value;
    assert reg[name := System({}, signature)] == ss[name := System({}, signature)];
  }

  /** SystemManager::EntityDestroyed. */
  function EntityDestroyed(ss: Systems, e: Entity): (r: Systems)
    ensures r.Keys == ss.Keys
    ensures forall n :: n in r ==> e !in r[n].entities
    ensures forall n, x :: n in r && x != e ==> (x in r[n].entities <==> x in ss[n].entities)
    ensures forall n :: n in r ==> r[n].signature == ss[n].signature
  {
    map n | n in ss :: ss[n].(entities := ss[n].entities - {e})
  }

  /** SystemManager::EntitySignatureChanged. */
  function EntitySignatureChanged(ss: Systems, e: Entity, signature: Signature): (r: Systems)
    ensures r.Keys == ss.Keys
    ensures forall n :: n in r ==> (e in r[n].entities <==> Matches(signature, ss[n].signature))
    ensures forall n, x :: n in r && x != e ==> (x in r[n].entities <==> x in ss[n].entities)
    ensures forall n :: n in r ==> r[n].signature == ss[n].signature
  {
    map n | n in ss ::
      if Matches(signature, ss[n].signature)
      then ss[n].(entities := ss[n].entities + {e})
      else ss[n].(entities := ss[n].entities - {e})
  }

  /** After a signature change the entity belongs to exactly the systems
      whose every required component it has. */
  lemma SignatureChangedMembership(ss: Systems, e: Entity, signature: Signature, n: SystemName)
    requires n in ss
    ensures e in EntitySignatureChanged(ss, e, signature)[n].entities <==>
      forall i :: 0 <= i < MaxComponents ==> (ss[n].signature[i] ==> signature[i])
  {
    MatchesIsSubset(signature, ss[n].signature);
  }

  /** Reporting the same signature twice changes nothing the second time,
      and destroying the entity afterwards undoes every membership change. */
  lemma SignatureChangedIdempotent(ss: Systems, e: Entity, signature: Signature)
    ensures var once := EntitySignatureChanged(ss, e, signature);
      && EntitySignatureChanged(once, e, signature) == once
      && EntityDestroyed(once, e) == EntityDestroyed(ss, e)
  {
    ChangedTwice(ss, e, signature);
    DestroyAfterChange(ss, e, signature);
  }

  lemma ChangedTwice(ss: Systems, e: Entity, signature: Signature)
    ensures EntitySignatureChanged(EntitySignatureChanged(ss, e, signature), e, signature) == EntitySignatureChanged(ss, e, signature)
  {
    var once := EntitySignatureChanged(ss, e, signature);
    var twice := EntitySignatureChanged(once, e, signature);
    forall n | n in once
      ensures twice[n] == once[n]
    {
      assert twice[n].entities == once[n].entities;
    }
  }

  lemma DestroyAfterChange(ss: Systems, e: Entity, signature: Signature)
    ensures EntityDestroyed(EntitySignatureChanged(ss, e, signature), e) == EntityDestroyed(ss, e)
  {
    var d1, d2 := EntityDestroyed(EntitySignatureChanged(ss, e, signature), e), EntityDestroyed(ss, e);
    forall n | n in d1
      ensures d1[n] == d2[n]
    {
      assert d1[n].entities == d2[n].entities;
    }
  }

  /** Every entity in a system that had its signature set since the last
      change of that entity's signature matches it: the membership invariant
      that SetSignature establishes and EntitySignatureChanged and
      EntityDestroyed preserve. */
  ghost predicate MembersMatch(ss: Systems, signatures: map<Entity, Signature>) {
    forall n, x :: n in ss && x in ss[n].entities ==> x in signatures && Matches(signatures[x], ss[n].signature)
  }

  lemma MembersMatchPreserved(ss: Systems, signatures: map<Entity, Signature>, e: Entity, signature: Signature, name: SystemName, s: Signature)
    requires MembersMatch(ss, signatures)
    ensures MembersMatch(EntitySignatureChanged(ss, e, signature), signatures[e := signature])
    ensures MembersMatch(EntityDestroyed(ss, e), signatures - {e})
    ensures SetSignature(ss, name, s).Success? ==> MembersMatch(SetSignature(ss, name, s).value, signatures)
  {
    ChangedMembersMatch(ss, signatures, e, signature);
    DestroyedMembersMatch(ss, signatures, e);
  }

  lemma ChangedMembersMatch(ss: Systems, signatures: map<Entity, Signature>, e: Entity, signature: Signature)
    requires MembersMatch(ss, signatures)
    ensures MembersMatch(EntitySignatureChanged(ss, e, signature), signatures[e := signature])
  {
    var changed, sigs := EntitySignatureChanged(ss, e, signature), signatures[e := signature];
    forall n, x | n in changed && x in changed[n].entities
      ensures x in sigs && Matches(sigs[x], changed[n].signature)
    {
      assert changed[n].signature == ss[n].signature;
      if x == e {
        assert Matches(signature, ss[n].signature);
      } else {
        assert x in ss[n].entities;
        assert sigs[x] == signatures[x];
      }
    }
  }

  lemma DestroyedMembersMatch(ss: Systems, signatures: map<Entity, Signature>, e: Entity)
    requires MembersMatch(ss, signatures)
    ensures MembersMatch(EntityDestroyed(ss, e), signatures - {e})
  {
    var destroyed, sigs := EntityDestroyed(ss, e), signatures - {e};
    forall n, x | n in destroyed && x in destroyed[n].entities
      ensures x in sigs && Matches(sigs[x], destroyed[n].signature)
    {
      assert x != e && x in ss[n].entities;
      assert destroyed[n].signature == ss[n].signature;
      assert sigs[x] == signatures[x];
    }
  }
}
