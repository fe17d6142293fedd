/** SubscriptionRepository: newsletter subscriptions, at most one per email
    address (the unique index on Email). */
module Subscriptions {
  import opened Common

  /** A row of the Subscriptions table; the sign-up date is not modelled. */
  datatype Subscription = Subscription(id: Guid, name: string, email: string)

  /** Some stored subscription has this email. */
  predicate EmailTaken(subs: map<Guid, Subscription>, email: string)
  {
    exists id | id in subs :: subs[id].email == email
  }

  /** Every row is keyed by its id and no two rows share an email. */
  ghost predicate WellFormed(subs: map<Guid, Subscription>)
  {
    && (forall id | id in subs :: subs[id].id == id)
    && (forall a, b | a in subs && b in subs && a != b :: subs[a].email != subs[b].email)
  }

  /** Adding a subscription for an email nobody holds keeps the emails
      unique, and the email is then taken. */
  lemma RegisterKeepsWellFormed(subs: map<Guid, Subscription>, newId: Guid, name: string, email: string)
    requires WellFormed(subs) && !EmailTaken(subs, email) && newId !in subs
    ensures WellFormed(subs[newId := Subscription(newId, name, email)])
    ensures EmailTaken(subs[newId := Subscription(newId, name, email)], email)
  {
    var after := subs[newId := Subscription(newId, name, email)];
    assert after[newId].email == email;
  }

  /** Removing a subscription keeps the table well formed and frees its
      email: nobody else held it. */
  lemma DeleteFreesEmail(subs: map<Guid, Subscription>, id: Guid)
    requires WellFormed(subs) && id in subs
    ensures WellFormed(subs - {id})
    ensures !EmailTaken(subs - {id}, subs[id].email)
  {
    var rest := subs - {id};
    forall other | other in rest ensures rest[other].email != subs[id].email {
      assert other != id && other in subs;
    }
  }

  class SubscriptionRepository {
    /** The Subscriptions table, by id. */
    var subscriptions: map<Guid, Subscription>

    ghost predicate Valid()
      reads this
    {
      WellFormed(subscriptions)
    }

    constructor ()
      ensures Valid() && subscriptions == map[]
    {
      subscriptions := map[];
    }

    /** `RegisterSubscriptionAsync`: refuse an email already registered,
        otherwise add the subscription under the key generated for it; when
        `SaveChanges` throws (`saveFails`) nothing is added. */
    method RegisterSubscription(name: string, email: string, newId: Guid, saveFails: bool) returns (r: Result<Guid>)
      requires Valid() && newId !in subscriptions
      modifies this
      ensures Valid()
      ensures EmailTaken(old(subscriptions), email) ==>
        r == Err(EmailAlreadyRegisteredException) && subscriptions == old(subscriptions)
      ensures !EmailTaken(old(subscriptions), email) && saveFails ==>
        r == Err(DbSaveFailure) && subscriptions == old(subscriptions)
      ensures !EmailTaken(old(subscriptions), email) && !saveFails ==>
        r == Ok(newId) && subscriptions == old(subscriptions)[newId := Subscription(newId, name, email)]
      ensures r.Ok? ==> GetSubscription(r.value) == Ok(Subscription(newId, name, email))
    {
      if exists id | id in subscriptions :: subscriptions[id].email == email {
        return Err(EmailAlreadyRegisteredException);
      }
      if saveFails {
        return Err(DbSaveFailure);
      }
      RegisterKeepsWellFormed(subscriptions, newId, name, email);
      subscriptions := subscriptions[newId := Subscription(newId, name, email)];
      return Ok(newId);
    }

    /** `GetSubscription`. */
    function GetSubscription(subscriberId: Guid): (r: Result<Subscription>)
      reads this
      ensures r.Ok? <==> subscriberId in subscriptions
      ensures r.Err? ==> r.error == UserNotFoundException
      ensures r.Ok? ==> r.value == subscriptions[subscriberId]
    {
      if subscriberId !in subscriptions then Err(UserNotFoundException) else Ok(subscriptions[subscriberId])
    }

    /** `DeleteSubscription`: remove exactly that subscription; when
        `SaveChanges` throws (`saveFails`) it stays. */
    method DeleteSubscription(subscriberId: Guid, saveFails: bool) returns (r: Result<()>)
      requires Valid()
      modifies this
      ensures Valid()
      ensures subscriberId !in old(subscriptions) ==>
        r == Err(UserNotFoundException) && subscriptions == old(subscriptions)
      ensures subscriberId in old(subscriptions) && saveFails ==>
        r == Err(DbSaveFailure) && subscriptions == old(subscriptions)
      ensures subscriberId in old(subscriptions) && !saveFails ==>
        r == Ok(()) && subscriptions == old(subscriptions) - {subscriberId}
        && !EmailTaken(subscriptions, old(subscriptions)[subscriberId].email)
    {
      if subscriberId !in subscriptions {
        return Err(UserNotFoundException);
      }
      if saveFails {
        return Err(DbSaveFailure);
      }
      DeleteFreesEmail(subscriptions, subscriberId);
      subscriptions := subscriptions - {subscriberId};
      return Ok(());
    }
  }
}
