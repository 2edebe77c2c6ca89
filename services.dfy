/** The registry of service ids that a `Services` object keeps: every
    contract id it hands out carries a service id not handed out before, and
    the method-mapper factory it was built with. */
module Services {
  import opened Primitives

  /** A `MethodMapper.Factory`; its internals are not part of this model, so
      a factory is known only by the name it was given. */
  datatype MethodMapperFactory = MethodMapperFactory(name: string)

  /** `ContractId.create(contract, id, factory)`: the contract (its class),
      the service id and the factory that maps its methods. */
  datatype ContractId<C> = ContractId(contract: C, id: int32, factory: MethodMapperFactory)

  datatype Exception =
    | NullPointerException
    | IllegalArgumentException(id: int32)

  datatype Outcome<T> = Returned(value: T) | Thrown(exception: Exception)

  predicate AllTaken(calls: seq<int32>, taken: set<int32>) {
    forall k | 0 <= k < |calls| :: calls[k] in taken
  }

  /** The ids that succeed when `contractId` is called with `calls` in turn
      on a registry already holding `taken`: the first call with each id not
      yet taken. No call is accepted twice, and when every id called is
      already taken, none is. */
  function Accepted(calls: seq<int32>, taken: set<int32>): (r: seq<int32>)
    ensures |r| <= |calls|
    ensures AllTaken(calls, taken) ==> r == []
    decreases |calls|
  {
    if |calls| == 0 then []
    else if calls[0] in taken then Accepted(calls[1..], taken)
    else [calls[0]] + Accepted(calls[1..], taken + {calls[0]})
  }

  predicate Distinct(ids: seq<int32>) {
    forall j, k | 0 <= j < k < |ids| :: ids[j] != ids[k]
  }

  /** An accepted id was asked for and not taken before. */
  lemma {:induction false} AcceptedFresh(calls: seq<int32>, taken: set<int32>)
    ensures forall id | id in Accepted(calls, taken) :: id !in taken && id in calls
    decreases |calls|
  {
    if |calls| > 0 {
      if calls[0] in taken {
        AcceptedFresh(calls[1..], taken);
      } else {
        AcceptedFresh(calls[1..], taken + {calls[0]});
      }
    }
  }

  /** Over any sequence of calls the accepted ids are pairwise distinct. */
  lemma {:induction false} AcceptedDistinct(calls: seq<int32>, taken: set<int32>)
    ensures Distinct(Accepted(calls, taken))
    decreases |calls|
  {
    if |calls| > 0 {
      if calls[0] in taken {
        AcceptedDistinct(calls[1..], taken);
      } else {
        var more := taken + {calls[0]};
        var tail := Accepted(calls[1..], more);
        AcceptedDistinct(calls[1..], more);
        AcceptedFresh(calls[1..], more);
        var r := Accepted(calls, taken);
        assert r == [calls[0]] + tail;
        forall j, k | 0 <= j < k < |r|
          ensures r[j] != r[k]
        {
          assert r[k] == tail[k - 1];
          if j > 0 {
            assert r[j] == tail[j - 1];
          } else {
            assert tail[k - 1] in tail;
          }
        }
      }
    }
  }

  /** Every id asked for is taken afterwards: either before the calls or by
      an accepted one. */
  lemma {:induction false} AcceptedCovers(calls: seq<int32>, taken: set<int32>)
    ensures taken + (set id | id in Accepted(calls, taken)) == taken + (set id | id in calls)
    decreases |calls|
  {
    if |calls| > 0 {
      var rest := calls[1..];
      assert calls == [calls[0]] + rest;
      if calls[0] in taken {
        AcceptedCovers(rest, taken);
      } else {
        var more := taken + {calls[0]};
        AcceptedCovers(rest, more);
        var tail := Accepted(rest, more);
        assert Accepted(calls, taken) == [calls[0]] + tail;
        assert (set id | id in Accepted(calls, taken)) == {calls[0]} + (set id | id in tail);
        assert (set id | id in calls) == {calls[0]} + (set id | id in rest);
        assert more + (set id | id in tail) == more + (set id | id in rest);
        assert taken + (set id | id in Accepted(calls, taken)) == more + (set id | id in tail);
        assert taken + (set id | id in calls) == more + (set id | id in rest);
      }
    }
  }

  /** Calls made one after the other: the later ones see the ids taken by
      the earlier ones. */
  lemma {:induction false} AcceptedAppend(a: seq<int32>, b: seq<int32>, taken: set<int32>)
    ensures Accepted(a + b, taken) == Accepted(a, taken) + Accepted(b, taken + (set id | id in a))
    decreases |a|
  {
    if |a| == 0 {
      assert a + b == b;
      assert taken + (set id | id in a) == taken;
    } else {
      assert (a + b)[0] == a[0] && (a + b)[1..] == a[1..] + b;
      var more := if a[0] in taken then taken else taken + {a[0]};
      AcceptedAppend(a[1..], b, more);
      assert a == [a[0]] + a[1..];
      assert more + (set id | id in a[1..]) == taken + (set id | id in a);
    }
  }

  /** A registry of service ids; `Services` is abstract in the source, the
      concrete services classes only add the contract ids they declare. */
  class Services {
    const methodMapperFactory: MethodMapperFactory
    var identifiers: set<int32>
    /** The ids accepted so far, in the order they were accepted. */
    ghost var issued: seq<int32>

    ghost predicate Valid()
      reads this
    {
      && Distinct(issued)
      && identifiers == set id | id in issued
    }

    /** The constructor, for a factory that is not null. */
    constructor(factory: MethodMapperFactory)
      ensures Valid()
      ensures methodMapperFactory == factory && identifiers == {} && issued == []
    {
      methodMapperFactory := factory;
      identifiers := {};
      issued := [];
    }

    /** `contractId(contract, id)`: a fresh id is added to the identifiers
        and comes back in a contract id with this registry's factory; an id
        already added is rejected and nothing changes. */
    method ContractIdOf<C>(contract: C, id: int32) returns (res: Outcome<ContractId<C>>)
      requires Valid()
      modifies this
      ensures Valid()
      ensures old(id in identifiers) <==> res.Thrown?
      ensures res.Thrown? ==> res.exception == IllegalArgumentException(id)
      ensures res.Thrown? ==> identifiers == old(identifiers) && issued == old(issued)
      ensures res.Returned? ==> res.value == ContractId(contract, id, methodMapperFactory)
      ensures res.Returned? ==> identifiers == old(identifiers) + {id} && issued == old(issued) + [id]
      ensures issued == old(issued) + Accepted([id], old(identifiers))
    {
      if id in identifiers {
        return Thrown(IllegalArgumentException(id));
      }
      identifiers := identifiers + {id};
      issued := issued + [id];
      res := Returned(ContractId(contract, id, methodMapperFactory));
    }
  }

  /** `Check.notNull(methodMapperFactory)` followed by the constructor: a
      null factory (None) throws a `NullPointerException`. */
  method NewServices(factory: Option<MethodMapperFactory>) returns (res: Outcome<Services>)
    ensures factory.None? <==> res.Thrown?
    ensures res.Thrown? ==> res.exception == NullPointerException
    ensures res.Returned? ==> fresh(res.value) && res.value.Valid()
    ensures res.Returned? ==> res.value.methodMapperFactory == factory.value && res.value.identifiers == {}
  {
    if factory.None? {
      return Thrown(NullPointerException);
    }
    var s := new Services(factory.value);
    res := Returned(s);
  }
}
