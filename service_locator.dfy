/** The ServiceLocator of service_locator.h: a registry holding at most one
    service instance per interface type. */
module Services {
  import opened Options
  import opened EngineSystem

  /** A registry from interface type to the instance registered for it.
      `Service` stands for the shared pointer the source stores. */
  class ServiceLocator<Service> {
    /** The registered instances, keyed by the interface type. */
    var services: map<TypeTag, Service>

    constructor ()
      ensures services == map[]
    {
      services := map[];
    }

    /** The instance registered for `key`, or none. */
    function GetService(key: TypeTag): (r: Option<Service>)
      reads this
      ensures r.Some? <==> key in services
      ensures r.Some? ==> r.value == services[key]
    {
      if key in services then Some(services[key]) else None
    }

    /** Whether an instance is registered for `key`: exactly when
        `GetService` finds one. */
    function HasService(key: TypeTag): (b: bool)
      reads this
      ensures b <==> GetService(key).Some?
    {
      key in services
    }

    /** Registers `service` for `key`, replacing any earlier instance;
        every other key keeps its instance. */
    method RegisterService(key: TypeTag, service: Service)
      modifies this
      ensures services == old(services)[key := service]
      ensures GetService(key) == Some(service)
      ensures forall k :: k != key ==> GetService(k) == old(GetService(k))
    {
      services := services[key := service];
    }

    /** Removes the instance registered for `key`, if any; every other key
        keeps its instance. */
    method UnregisterService(key: TypeTag)
      modifies this
      ensures services == old(services) - {key}
      ensures !HasService(key)
      ensures forall k :: k != key ==> GetService(k) == old(GetService(k))
      ensures old(!HasService(key)) ==> services == old(services)
    {
      services := services - {key};
    }

    /** Removes every registered instance. */
    method Clear()
      modifies this
      ensures services == map[]
      ensures forall k :: !HasService(k)
    {
      services := map[];
    }
  }
}
