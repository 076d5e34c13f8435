/** Services: the store of src/repositories/service_repositories.py over
    table `services`, and the name-uniqueness checks of
    src/controller/service_controller.py in front of it. The store commits
    every write; the database refuses a row whose name is not unique or
    longer than 100 characters, whose image URL is longer than 250, whose
    price does not fit Numeric(10,2) or whose duration does not fit a
    32-bit Integer. */
module ServiceControl {
  import opened Common

  /** A row of table `services`; the price in hundredths. */
  datatype Service = Service(serviceId: int, name: string, description: Option<string>, imageUrl: string,
                             price: int, durationMinutes: int, isAvailable: bool)

  type Services = map<int, Service>

  const IntegerMin: int := -0x8000_0000
  const IntegerMax: int := 0x7fff_ffff

  /** The column constraints of one row. */
  predicate ServiceFits(s: Service) {
    && |s.name| <= 100 && |s.imageUrl| <= 250 && FitsNumeric(s.price)
    && IntegerMin <= s.durationMinutes <= IntegerMax
  }

  /** get_by_name(name) finds a row. */
  predicate NameTaken(services: Services, name: string) {
    exists id :: id in services && services[id].name == name
  }

  /** A service other than `id` holds `name`. */
  predicate HeldElsewhere(services: Services, id: int, name: string) {
    exists k :: k in services && k != id && services[k].name == name
  }

  /** The unique index on `services.name`. */
  predicate UniqueNames(services: Services) {
    forall a, b :: a in services && b in services && services[a].name == services[b].name ==> a == b
  }

  /** The table as the database allows it: unique names, every row within
      its columns. */
  predicate Consistent(services: Services) {
    UniqueNames(services) && forall id :: id in services ==> ServiceFits(services[id])
  }

  /** The row update_service leaves: each argument that is not None is
      assigned, every other field keeps its value. */
  function Overlay(s: Service, name: Option<string>, description: Option<string>, imageUrl: Option<string>,
                   price: Option<int>, durationMinutes: Option<int>, isAvailable: Option<bool>): (r: Service)
    ensures r.serviceId == s.serviceId
    ensures r.name == if name.Some? then name.value else s.name
    ensures r.description == if description.Some? then description else s.description
    ensures r.imageUrl == if imageUrl.Some? then imageUrl.value else s.imageUrl
    ensures r.price == if price.Some? then price.value else s.price
    ensures r.durationMinutes == if durationMinutes.Some? then durationMinutes.value else s.durationMinutes
    ensures r.isAvailable == if isAvailable.Some? then isAvailable.value else s.isAvailable
  {
    var r := if name.Some? then s.(name := name.value) else s;
    var r := if description.Some? then r.(description := description) else r;
    var r := if imageUrl.Some? then r.(imageUrl := imageUrl.value) else r;
    var r := if price.Some? then r.(price := price.value) else r;
    var r := if durationMinutes.Some? then r.(durationMinutes := durationMinutes.value) else r;
    if isAvailable.Some? then r.(isAvailable := isAvailable.value) else r
  }

  /** create_service with the id the table's sequence hands out next. */
  function Create(services: Services, nextId: int, name: string, imageUrl: string, price: int,
                  durationMinutes: int, description: Option<string>, isAvailable: bool)
    : (s: (Result<Service>, Services))
  {
    var row := Service(nextId, name, description, imageUrl, price, durationMinutes, isAvailable);
    if NameTaken(services, name) then (Err(ServiceNameTaken(name)), services)
    else if !ServiceFits(row) then (Err(CommitRejected), services)
    else (Ok(row), services[nextId := row])
  }

  /** update_service: None for an absent service; a new name that another
      service holds is refused. */
  function Update(services: Services, id: int, name: Option<string>, description: Option<string>,
                  imageUrl: Option<string>, price: Option<int>, durationMinutes: Option<int>,
                  isAvailable: Option<bool>): (s: (Result<Option<Service>>, Services))
  {
    if id !in services then (Ok(None), services)
    else if name.Some? && name.value != services[id].name && NameTaken(services, name.value)
    then (Err(ServiceNameTaken(name.value)), services)
    else
      var row := Overlay(services[id], name, description, imageUrl, price, durationMinutes, isAvailable);
      if ServiceFits(row) then (Ok(Some(row)), services[id := row]) else (Err(CommitRejected), services)
  }

  /** delete_service; the service's product associations go with it
      (cascade), so the commit cannot be refused. */
  function Delete(services: Services, id: int): (s: (Result<bool>, Services))
  {
    if id !in services then (Err(ServiceNotFound(id)), services) else (Ok(true), services - {id})
  }

  /** create_service: a taken name is refused before anything is written;
      otherwise the row holds exactly the given fields under the fresh id. */
  lemma CreateSpec(services: Services, nextId: int, name: string, imageUrl: string, price: int,
                   durationMinutes: int, description: Option<string>, isAvailable: bool)
    requires Consistent(services) && nextId !in services
    ensures var (r, services') := Create(services, nextId, name, imageUrl, price, durationMinutes,
                                         description, isAvailable);
      && (NameTaken(services, name) ==> r == Err(ServiceNameTaken(name)))
      && (r.Err? ==> services' == services)
      && (r.Ok? ==> services' == services[nextId := r.value]
                    && r.value == Service(nextId, name, description, imageUrl, price, durationMinutes, isAvailable))
      && Consistent(services')
  {
  }

  /** update_service keeps the table consistent and touches only the one
      service. */
  lemma UpdateSpec(services: Services, id: int, name: Option<string>, description: Option<string>,
                   imageUrl: Option<string>, price: Option<int>, durationMinutes: Option<int>,
                   isAvailable: Option<bool>)
    requires Consistent(services)
    ensures var (r, services') := Update(services, id, name, description, imageUrl, price, durationMinutes,
                                         isAvailable);
      && Consistent(services')
      && services'.Keys == services.Keys
      && (forall k :: k in services && k != id ==> services'[k] == services[k])
      && (r == Ok(None) <==> id !in services)
  {
    if id in services && !(name.Some? && name.value != services[id].name && NameTaken(services, name.value)) {
      var row := Overlay(services[id], name, description, imageUrl, price, durationMinutes, isAvailable);
      if ServiceFits(row) {
        RewriteKeepsConsistent(services, id, row);
      }
    }
  }

  /** Writing a row that fits over service `id` keeps the table consistent
      when its name is the old one or free. */
  lemma RewriteKeepsConsistent(services: Services, id: int, row: Service)
    requires Consistent(services) && id in services && ServiceFits(row)
    requires row.name == services[id].name || !NameTaken(services, row.name)
    ensures Consistent(services[id := row])
  {
  }

  /** An update that passes update_service's name check leaves a row whose
      name no other service holds. */
  lemma NoConflictElsewhere(services: Services, id: int, name: Option<string>, description: Option<string>,
                            imageUrl: Option<string>, price: Option<int>, durationMinutes: Option<int>,
                            isAvailable: Option<bool>)
    requires UniqueNames(services) && id in services
    requires !(name.Some? && name.value != services[id].name && NameTaken(services, name.value))
    ensures !HeldElsewhere(services, id,
                           Overlay(services[id], name, description, imageUrl, price, durationMinutes, isAvailable).name)
  {
  }

  /** Renaming a service to the name it already has is no conflict. */
  lemma RenameToOwnNameAllowed(services: Services, id: int)
    requires Consistent(services) && id in services
    ensures Update(services, id, Some(services[id].name), None, None, None, None, None)
            == (Ok(Some(services[id])), services)
  {
    assert Overlay(services[id], Some(services[id].name), None, None, None, None, None) == services[id];
    assert services[id := services[id]] == services;
  }

  /** A service deleted once is gone: deleting it again is refused. */
  lemma DeleteTwice(services: Services, id: int)
    requires id in services
    ensures Delete(services, id).0 == Ok(true)
    ensures Delete(Delete(services, id).1, id).0 == Err(ServiceNotFound(id))
  {
  }

  /** The attribute assignments of update on the fetched row: each
      argument that is not None overwrites its field. */
  method AssignServiceFields(service: Service, name: Option<string>, description: Option<string>,
                             imageUrl: Option<string>, price: Option<int>, durationMinutes: Option<int>,
                             isAvailable: Option<bool>) returns (obj: Service)
    ensures obj == Overlay(service, name, description, imageUrl, price, durationMinutes, isAvailable)
  {
    obj := service;
    if name.Some? {
      obj := obj.(name := name.value);
    }
    if description.Some? {
      obj := obj.(description := description);
    }
    if imageUrl.Some? {
      obj := obj.(imageUrl := imageUrl.value);
    }
    if price.Some? {
      obj := obj.(price := price.value);
    }
    if durationMinutes.Some? {
      obj := obj.(durationMinutes := durationMinutes.value);
    }
    if isAvailable.Some? {
      obj := obj.(isAvailable := isAvailable.value);
    }
  }

  /** The store. */
  class ServiceRepository {
    var services: Services
    var nextId: int

    ghost predicate Valid()
      reads this
    {
      && Consistent(services)
      && forall id :: id in services ==> services[id].serviceId == id && id < nextId
    }

    constructor ()
      ensures Valid() && services == map[]
    {
      services, nextId := map[], 1;
    }

    /** get_by_id. */
    method GetById(id: int) returns (r: Option<Service>)
      ensures r.Some? <==> id in services
      ensures r.Some? ==> r.value == services[id]
    {
      if id in services {
        r := Some(services[id]);
      } else {
        r := None;
      }
    }

    /** get_by_name. */
    method GetByName(name: string) returns (r: Option<Service>)
      requires Valid()
      ensures r.Some? <==> NameTaken(services, name)
      ensures r.Some? ==> r.value.serviceId in services && services[r.value.serviceId] == r.value
                          && r.value.name == name
    {
      if id :| id in services && services[id].name == name {
        r := Some(services[id]);
      } else {
        r := None;
      }
    }

    /** create: the row is added and committed; the id is drawn from the
        sequence even when the commit is refused. */
    method Create(name: string, imageUrl: string, price: int, durationMinutes: int,
                  description: Option<string>, isAvailable: bool) returns (r: Result<Service>)
      requires Valid()
      modifies this
      ensures Valid()
      ensures nextId == old(nextId) + 1 && old(nextId) !in old(services)
      ensures var row := Service(old(nextId), name, description, imageUrl, price, durationMinutes, isAvailable);
        if ServiceFits(row) && !NameTaken(old(services), name)
        then r == Ok(row) && services == old(services)[row.serviceId := row]
        else r == Err(CommitRejected) && services == old(services)
    {
      var row := Service(nextId, name, description, imageUrl, price, durationMinutes, isAvailable);
      nextId := nextId + 1;
      if !ServiceFits(row) || NameTaken(services, name) {
        return Err(CommitRejected);
      }
      services := services[row.serviceId := row];
      r := Ok(row);
    }

    /** update: None for an absent row; otherwise the arguments that are
        not None are assigned in place and committed. */
    method Update(id: int, name: Option<string>, description: Option<string>, imageUrl: Option<string>,
                  price: Option<int>, durationMinutes: Option<int>, isAvailable: Option<bool>)
      returns (r: Result<Option<Service>>)
      requires Valid()
      modifies this`services
      ensures Valid()
      ensures id !in old(services) ==> r == Ok(None) && services == old(services)
      ensures id in old(services) ==>
        var row := Overlay(old(services)[id], name, description, imageUrl, price, durationMinutes, isAvailable);
        if ServiceFits(row) && !HeldElsewhere(old(services), id, row.name)
        then r == Ok(Some(row)) && services == old(services)[id := row]
        else r == Err(CommitRejected) && services == old(services)
    {
      var found := GetById(id);
      if found.None? {
        return Ok(None);
      }
      var service := AssignServiceFields(found.value, name, description, imageUrl, price, durationMinutes,
                                         isAvailable);
      if !ServiceFits(service) || HeldElsewhere(services, id, service.name) {
        return Err(CommitRejected);
      }
      services := services[id := service];
      r := Ok(Some(service));
    }

    /** delete: False when absent, otherwise the row goes and True. */
    method Delete(id: int) returns (deleted: bool)
      requires Valid()
      modifies this`services
      ensures Valid()
      ensures deleted <==> id in old(services)
      ensures services == old(services) - {id}
    {
      deleted := id in services;
      services := services - {id};
    }
  }

  class ServiceController {
    const repo: ServiceRepository

    ghost predicate Valid()
      reads this, repo
    {
      repo.Valid()
    }

    constructor (repo: ServiceRepository)
      requires repo.Valid()
      ensures this.repo == repo && Valid()
    {
      this.repo := repo;
    }

    /** create_service. */
    method CreateService(name: string, imageUrl: string, price: int, durationMinutes: int,
                         description: Option<string>, isAvailable: bool) returns (r: Result<Service>)
      requires Valid()
      modifies repo
      ensures Valid()
      ensures (r, repo.services) == Create(old(repo.services), old(repo.nextId), name, imageUrl, price,
                                           durationMinutes, description, isAvailable)
    {
      var existing := repo.GetByName(name);
      if existing.Some? {
        return Err(ServiceNameTaken(name));
      }
      r := repo.Create(name, imageUrl, price, durationMinutes, description, isAvailable);
    }

    /** update_service. */
    method UpdateService(id: int, name: Option<string>, description: Option<string>, imageUrl: Option<string>,
                         price: Option<int>, durationMinutes: Option<int>, isAvailable: Option<bool>)
      returns (r: Result<Option<Service>>)
      requires Valid()
      modifies repo`services
      ensures Valid()
      ensures (r, repo.services) == Update(old(repo.services), id, name, description, imageUrl, price,
                                           durationMinutes, isAvailable)
    {
      var existing := repo.GetById(id);
      if existing.None? {
        return Ok(None);
      }
      if name.Some? && name.value != existing.value.name {
        var taken := repo.GetByName(name.value);
        if taken.Some? {
          return Err(ServiceNameTaken(name.value));
        }
      }
      NoConflictElsewhere(repo.services, id, name, description, imageUrl, price, durationMinutes, isAvailable);
      r := repo.Update(id, name, description, imageUrl, price, durationMinutes, isAvailable);
    }

    /** delete_service. */
    method DeleteService(id: int) returns (r: Result<bool>)
      requires Valid()
      modifies repo`services
      ensures Valid()
      ensures (r, repo.services) == Delete(old(repo.services), id)
    {
      var existing := repo.GetById(id);
      if existing.None? {
        return Err(ServiceNotFound(id));
      }
      var deleted := repo.Delete(id);
      r := Ok(deleted);
    }
  }
}
