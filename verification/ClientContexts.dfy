/** The client context, field by field, proved to do what the lifecycle model says. */
module ClientContexts {
  import opened Prelude
  import opened Lifecycle

  /** The sum of the deltas that the resource observer has been told. */
  class ResourceMeter {
    var balance: int

    constructor ()
      ensures balance == 0
    {
      balance := 0;
    }

    method Change(delta: int)
      modifies this
      ensures balance == old(balance) + delta
    {
      balance := balance + delta;
    }
  }

  /** A client's transport: made by `createDefaultTransport` and metered, or built over an injected fetch and not. */
  class ClientTransport {
    const meter: ResourceMeter?
    var closed: bool

    constructor Default(meter: ResourceMeter)
      modifies meter
      ensures this.meter == meter && !closed
      ensures meter.balance == old(meter.balance) + 1
    {
      this.meter := meter;
      this.closed := false;
      new;
      meter.Change(1);
    }

    constructor Injected()
      ensures meter == null && !closed
    {
      this.meter := null;
      this.closed := false;
    }

    /** Only the first close of a metered transport is reported. */
    method Close()
      modifies this, meter
      ensures closed == (old(closed) || meter != null)
      ensures meter != null ==> meter.balance == old(meter.balance) - if old(closed) then 0 else 1
    {
      if meter == null || closed { return; }
      closed := true;
      meter.Change(-1);
    }
  }

  class ClosePromise {
    var resolutions: nat

    constructor ()
      ensures resolutions == 0
    {
      resolutions := 0;
    }

    method Resolve()
      modifies this
      ensures resolutions == old(resolutions) + 1
    {
      resolutions := resolutions + 1;
    }
  }

  datatype InvokeError = ClientIsClosed | InvalidConfiguration

  class ClientContext {
    const injected: bool
    const meter: ResourceMeter
    var transport: ClientTransport?
    var state: Phase
    var active: int
    var closePromise: ClosePromise?
    var closeResolver: ClosePromise?
    ghost var model: Client

    /** The fields are those of the model, which only ever moves by steps of the lifecycle. */
    ghost predicate Valid()
      reads this, transport, closePromise
    {
      && model.injected == injected && model.phase == state && model.active == active
      && (transport != null <==> model.transport.Some?)
      && (transport != null ==> !transport.closed && transport.meter == if injected then null else meter)
      && (closePromise == null <==> model.promise == NotAsked)
      && (closePromise != null ==> closePromise.resolutions == if model.promise == Resolved then 1 else 0)
      && closeResolver == if model.promise == Pending then closePromise else null
    }

    constructor (injected: bool, meter: ResourceMeter)
      ensures Valid() && model == NewClient(injected)
      ensures this.injected == injected && this.meter == meter
    {
      this.injected := injected;
      this.meter := meter;
      transport, state, active, closePromise, closeResolver := null, Open, 0, null, null;
      model := NewClient(injected);
    }

    /** `invoke` up to its await: refuse, or count the call and hand it the one transport. */
    method BeginInvoke(ghost call: nat, constructible: bool) returns (result: Result<ClientTransport, InvokeError>)
      requires Valid() && call !in model.calls
      modifies this, meter, transport, closePromise
      ensures Valid() && model == After(old(model), Begin(call, constructible))
      ensures meter.balance == old(meter.balance) + Held(model) - Held(old(model))
      ensures transport != old(transport) ==> fresh(transport)
      ensures result == (
        if old(state) != Open then Err(ClientIsClosed)
        else if transport != null then Ok(transport)
        else Err(InvalidConfiguration))
      ensures result.Err? ==> transport == old(transport)
      ensures result.Ok? <==> call in model.calls
      ensures active == old(active) + if result.Ok? then 1 else 0
      ensures closePromise == old(closePromise)
    {
      if state != Open {
        model := After(model, Begin(call, constructible));
        return Err(ClientIsClosed);
      }
      active := active + 1;
      if transport == null {
        if !constructible {
          active := active - 1;
          model := model.(log := model.log + [CreationFailed(call)]);
          FinishClose();
          return Err(InvalidConfiguration);
        }
        CreateTransport();
      }
      model := After(model, Begin(call, constructible));
      return Ok(transport);
    }

    /** Over the injected fetch, or the default one. */
    method CreateTransport()
      modifies this`transport, meter
      ensures fresh(transport) && !transport.closed && transport.meter == if injected then null else meter
      ensures meter.balance == old(meter.balance) + if injected then 0 else 1
    {
      if injected {
        transport := new ClientTransport.Injected();
      } else {
        transport := new ClientTransport.Default(meter);
      }
    }

    /** The finally block of `invoke`. */
    method EndInvoke(ghost call: nat)
      requires Valid() && call in model.calls
      modifies this, meter, transport, closePromise
      ensures Valid() && model == After(old(model), Finish(call))
      ensures call !in model.calls && active == old(active) - 1
      ensures meter.balance == old(meter.balance) + Held(model) - Held(old(model))
      ensures (transport == null || transport == old(transport)) && closePromise == old(closePromise)
    {
      active := active - 1;
      model := Released(model, call);
      FinishClose();
    }

    /** Every close returns the one promise; only the first has an effect. */
    method Close() returns (promise: ClosePromise)
      requires Valid()
      modifies this, meter, transport, closePromise
      ensures Valid() && model == After(old(model), Lifecycle.Close)
      ensures meter.balance == old(meter.balance) + Held(model) - Held(old(model))
      ensures transport == null || transport == old(transport)
      ensures promise == closePromise
      ensures if old(closePromise) == null then fresh(promise) else promise == old(closePromise)
    {
      if closePromise != null { return closePromise; }
      state := Closing;
      closePromise := new ClosePromise();
      closeResolver := closePromise;
      model := Asked(model);
      FinishClose();
      return closePromise;
    }

    method FinishClose()
      requires Valid()
      modifies this`transport, this`state, this`closeResolver, this`model, meter, transport, closePromise
      ensures Valid() && model == Lifecycle.FinishClose(old(model))
      ensures meter.balance == old(meter.balance) + Held(model) - Held(old(model))
      ensures transport == null || transport == old(transport)
    {
      if state != Closing || active != 0 || closeResolver == null { return; }
      if transport != null {
        transport.Close();
      }
      transport := null;
      state := Closed;
      var resolve := closeResolver;
      closeResolver := null;
      resolve.Resolve();
      model := Lifecycle.FinishClose(model);
    }
  }

  /** The clients of one process, all on the meter that the resource observer keeps. */
  class Process {
    const meter: ResourceMeter
    var clients: seq<ClientContext>
    ghost var history: seq<WorldStep>

    ghost function Models(): seq<Client>
      reads this, clients
    {
      seq(|clients|, i requires 0 <= i < |clients| reads this, clients => clients[i].model)
    }

    /** No two clients share a transport or a promise. */
    ghost predicate Separate()
      reads this, clients
    {
      forall i, j | 0 <= i < |clients| && 0 <= j < |clients| && i != j :: Apart(clients[i], clients[j])
    }

    static ghost predicate Apart(c: ClientContext, d: ClientContext)
      reads c, d
    {
      && c != d
      && (c.transport != null ==> c.transport != d.transport)
      && (c.closePromise != null ==> c.closePromise != d.closePromise)
    }

    /** Every client is in order, on this meter, and apart from the others. */
    ghost predicate InOrder()
      reads this, clients, set c | c in clients :: c.transport, set c | c in clients :: c.closePromise
    {
      (forall i | 0 <= i < |clients| :: clients[i].Valid() && clients[i].meter == meter) && Separate()
    }

    /** And they have come this far by the steps of the history, and the meter shows what they hold together. */
    ghost predicate Valid()
      reads this, meter, clients, set c | c in clients :: c.transport, set c | c in clients :: c.closePromise
    {
      InOrder() && Follows(Models(), history, meter.balance)
    }

    /** The clients other than this one have not been touched, and so are in order as they were. */
    twostate predicate OthersKept(index: nat)
      requires index < |clients| && clients == old(clients)
      reads this, clients, set c | c in clients :: c.transport, set c | c in clients :: c.closePromise
      ensures OthersKept(index) && old(InOrder()) ==>
        forall j | 0 <= j < |clients| && j != index ::
          clients[j].Valid() && clients[j].meter == meter
      ensures OthersKept(index) ==> Models() == old(Models())[index := clients[index].model]
    {
      forall j | 0 <= j < |clients| && j != index ::
        && unchanged(clients[j])
        && (clients[j].transport != null ==> unchanged(clients[j].transport))
        && (clients[j].closePromise != null ==> unchanged(clients[j].closePromise))
    }

    /** One client has moved on, to objects of its own or to new ones, and so all are still apart. */
    twostate predicate StaysApart(index: nat)
      requires index < |clients| && clients == old(clients)
      reads this, clients, set c | c in clients :: c.transport, set c | c in clients :: c.closePromise
      ensures StaysApart(index) && old(InOrder()) ==>
        forall j | 0 <= j < |clients| && j != index ::
          Apart(clients[index], clients[j]) && Apart(clients[j], clients[index])
    {
      var c := clients[index];
      && (c.transport == null || c.transport == old(c.transport) || fresh(c.transport))
      && (c.closePromise == null || c.closePromise == old(c.closePromise) || fresh(c.closePromise))
      && OthersKept(index)
    }

    /** If it is in order itself, all are, and the models differ in its own. */
    twostate predicate OnlyMoved(index: nat)
      requires index < |clients| && clients == old(clients)
      reads this, clients, set c | c in clients :: c.transport, set c | c in clients :: c.closePromise
      ensures OnlyMoved(index) && old(InOrder()) ==>
        InOrder() && Models() == old(Models())[index := clients[index].model]
    {
      clients[index].Valid() && StaysApart(index)
    }

    constructor ()
      ensures Valid() && clients == [] && history == []
    {
      meter := new ResourceMeter();
      clients, history := [], [];
    }

    method NewContext(injected: bool) returns (client: ClientContext)
      requires Valid()
      modifies this
      ensures Valid() && fresh(client) && clients == old(clients) + [client]
      ensures history == old(history) + [Spawn(injected)]
    {
      client := new ClientContext(injected, meter);
      FollowsSpawn(Models(), history, meter.balance, injected);
      clients := clients + [client];
      history := history + [Spawn(injected)];
      assert Models() == old(Models()) + [client.model];
    }

    method BeginInvoke(index: nat, ghost call: nat, constructible: bool)
      returns (result: Result<ClientTransport, InvokeError>)
      requires Valid() && index < |clients| && call !in clients[index].model.calls
      modifies this`history, meter, clients[index], clients[index].transport, clients[index].closePromise
      ensures Valid() && history == old(history) + [On(index, Begin(call, constructible))]
    {
      FollowsStep(Models(), history, meter.balance, index, Begin(call, constructible));
      result := clients[index].BeginInvoke(call, constructible);
      history := history + [On(index, Begin(call, constructible))];
      assert OnlyMoved(index);
    }

    method EndInvoke(index: nat, ghost call: nat)
      requires Valid() && index < |clients| && call in clients[index].model.calls
      modifies this`history, meter, clients[index], clients[index].transport, clients[index].closePromise
      ensures Valid() && history == old(history) + [On(index, Finish(call))]
    {
      FollowsStep(Models(), history, meter.balance, index, Finish(call));
      clients[index].EndInvoke(call);
      history := history + [On(index, Finish(call))];
      assert OnlyMoved(index);
    }

    method Close(index: nat) returns (promise: ClosePromise)
      requires Valid() && index < |clients|
      modifies this`history, meter, clients[index], clients[index].transport, clients[index].closePromise
      ensures Valid() && history == old(history) + [On(index, Lifecycle.Close)]
    {
      FollowsStep(Models(), history, meter.balance, index, Lifecycle.Close);
      promise := clients[index].Close();
      history := history + [On(index, Lifecycle.Close)];
      assert OnlyMoved(index);
    }

    /** What the meter shows is the sum of all reported deltas, and zero once every client has closed. */
    lemma MeterShowsWhatIsHeld()
      requires Valid()
      ensures meter.balance == TotalHeld(Models()) == TotalReported(Models())
      ensures (forall i | 0 <= i < |clients| :: clients[i].state == Closed) ==> meter.balance == 0
    {
      ResourcesBalance(history);
    }
  }
}
