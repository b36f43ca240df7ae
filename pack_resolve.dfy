/**
 * Turning the package named on the command line into one package id
 * (pk_generate_pack_perhaps_resolve in client/pk-generate-pack.c). The package-management
 * service and the console are outside the program: what they answer is given as a
 * ResolveService value, and the queries issued are returned alongside the result.
 */
module PackResolve {
  import opened Wrappers
  import opened Packages

  /** The requests sent to the service or the user, in the order they happen. */
  datatype Query =
    | Reset                              // pk_client_reset
    | ResolveNames(names: seq<string>)   // pk_client_resolve
    | WhatProvides(search: string)       // pk_client_what_provides
    | AskNumber(maximum: nat)            // pk_console_get_number

  /** What the service and the user answer. */
  datatype ResolveService = ResolveService(
    resetOk: bool,                          // the first pk_client_reset
    resolved: Option<seq<PackageObj>>,      // pk_client_resolve: the packages found, or failure
    providesResetOk: bool,                  // the pk_client_reset before what-provides
    provided: Option<seq<PackageObj>>,      // pk_client_what_provides: the packages found, or failure
    number: nat -> nat)                     // pk_console_get_number for a given maximum

  /** The console's promise: the number typed lies between 1 and the maximum offered. */
  ghost predicate NumberInRange(svc: ResolveService)
  {
    forall m: nat :: 1 <= m ==> 1 <= svc.number(m) <= m
  }

  /** The result: the package id (NULL on failure) and the queries issued. */
  datatype Resolution = Resolution(id: Option<string>, queries: seq<Query>)

  /** The package list the choice is made from: the resolve answer, unless that was
      empty, in which case the what-provides answer. */
  function Candidates(svc: ResolveService): seq<PackageObj>
    requires svc.resolved.Some?
    requires svc.resolved.value == [] ==> svc.provided.Some?
  {
    if svc.resolved.value != [] then svc.resolved.value else svc.provided.value
  }

  /** Choosing from a non-empty list: its only element, or the one the user numbers. */
  function Choose(objs: seq<PackageObj>, svc: ResolveService, before: seq<Query>): (r: Resolution)
    requires NumberInRange(svc)
    ensures objs == [] ==> r == Resolution(None, before)
    ensures |objs| == 1 ==> r == Resolution(Some(PackageIdToString(objs[0].id)), before)
    ensures |objs| > 1 ==> r.queries == before + [AskNumber(|objs|)]
    ensures |objs| > 1 ==>
              1 <= svc.number(|objs|) <= |objs| && r.id == Some(PackageIdToString(objs[svc.number(|objs|) - 1].id))
  {
    if objs == [] then Resolution(None, before)
    else if |objs| == 1 then Resolution(Some(PackageIdToString(objs[0].id)), before)
    else
      var i := svc.number(|objs|);
      Resolution(Some(PackageIdToString(objs[i - 1].id)), before + [AskNumber(|objs|)])
  }

  /** pk_generate_pack_perhaps_resolve (client, filter, package, error); `isId` is
      pk_package_id_check. */
  function PerhapsResolve(isId: string -> bool, svc: ResolveService, package: string): (r: Resolution)
    requires NumberInRange(svc)
    // a complete package id is returned as it is, without asking anybody
    ensures isId(package) ==> r == Resolution(Some(package), [])
    // otherwise the client is reset and the name resolved first
    ensures !isId(package) ==> |r.queries| >= 1 && r.queries[0] == Reset
    ensures !isId(package) && svc.resetOk ==> |r.queries| >= 2 && r.queries[1] == ResolveNames([package])
    // what-provides is asked exactly when resolving worked and found nothing
    ensures WhatProvides(package) in r.queries
        <==> !isId(package) && svc.resetOk && svc.resolved == Some([]) && svc.providesResetOk
    // the user is asked only when there is more than one match
    ensures forall q :: q in r.queries && q.AskNumber? ==> q.maximum > 1
    // a result is either the package itself or one of the candidates
    ensures r.id.Some? ==>
              isId(package)
              || (svc.resetOk && svc.resolved.Some? && (svc.resolved.value == [] ==> svc.provided.Some?)
                  && exists o :: o in Candidates(svc) && r.id.value == PackageIdToString(o.id))
  {
    if isId(package) then Resolution(Some(package), [])
    else if !svc.resetOk then Resolution(None, [Reset])
    else if svc.resolved.None? then Resolution(None, [Reset, ResolveNames([package])])
    else if svc.resolved.value != [] then Choose(svc.resolved.value, svc, [Reset, ResolveNames([package])])
    else if !svc.providesResetOk then Resolution(None, [Reset, ResolveNames([package]), Reset])
    else if svc.provided.None? then Resolution(None, [Reset, ResolveNames([package]), Reset, WhatProvides(package)])
    else Choose(svc.provided.value, svc, [Reset, ResolveNames([package]), Reset, WhatProvides(package)])
  }

  /** "Could not find a package match": both answers empty gives NULL. */
  lemma ResolveNoMatch(isId: string -> bool, svc: ResolveService, package: string)
    requires NumberInRange(svc)
    requires !isId(package) && svc.resetOk && svc.providesResetOk
    requires svc.resolved == Some([]) && svc.provided == Some([])
    ensures PerhapsResolve(isId, svc, package)
         == Resolution(None, [Reset, ResolveNames([package]), Reset, WhatProvides(package)])
  {
  }

  /** The result is NULL exactly when a query failed or no candidate was found. */
  lemma ResolveFails(isId: string -> bool, svc: ResolveService, package: string)
    requires NumberInRange(svc)
    ensures PerhapsResolve(isId, svc, package).id.None?
        <==> !isId(package)
             && (!svc.resetOk || svc.resolved.None?
                 || (svc.resolved.value == [] && (!svc.providesResetOk || svc.provided.None? || svc.provided.value == [])))
  {
  }

  /** One candidate is taken as it is; with N > 1 the user's number i in [1, N] picks
      element i - 1. */
  lemma ResolveChoice(isId: string -> bool, svc: ResolveService, package: string)
    requires NumberInRange(svc)
    requires !isId(package) && svc.resetOk && svc.resolved.Some?
    requires svc.resolved.value == [] ==> svc.providesResetOk && svc.provided.Some?
    ensures var c := Candidates(svc);
            var r := PerhapsResolve(isId, svc, package);
            (|c| == 1 ==> r.id == Some(PackageIdToString(c[0].id)) && AskNumber(1) !in r.queries)
            && (|c| > 1 ==> 1 <= svc.number(|c|) <= |c|
                            && r.id == Some(PackageIdToString(c[svc.number(|c|) - 1].id))
                            && r.queries[|r.queries| - 1] == AskNumber(|c|))
  {
  }
}
