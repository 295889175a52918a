/** The records of the APT history logger (`LogJSON`, `PackageInfo`) and the
    splitter's size bound. */
module Types {

  datatype Option<+T> = None | Some(value: T)

  /** journalDMaxSize: the largest serialized record the splitter lets through. */
  const JournalDMaxSize: int := 16 * 999

  /** One package of an Install/Reinstall/Upgrade/Remove/Purge line. */
  datatype PackageInfo = PackageInfo(name: string, arch: string, oldVersion: string, version: string)

  /** One APT history event, as emitted. */
  datatype LogJSON = LogJSON(
    eventID: string,
    commandLine: string,
    startTimestamp: string,
    endTimeStamp: string,
    elapsedSeconds: int,
    requestedBy: string,
    requestedByUID: int,
    totalPackages: int,
    install: seq<PackageInfo>,
    reinstall: seq<PackageInfo>,
    upgrade: seq<PackageInfo>,
    remove: seq<PackageInfo>,
    purge: seq<PackageInfo>,
    installOperation: bool,
    reinstallOperation: bool,
    upgradeOperation: bool,
    removeOperation: bool,
    purgeOperation: bool,
    error: string)

  /** Go's zero value of LogJSON. */
  const EmptyLog: LogJSON :=
    LogJSON("", "", "", "", 0, "", 0, 0, [], [], [], [], [], false, false, false, false, false, "")

  /** The five package-list fields, in declaration order. */
  datatype ListField = Install | Reinstall | Upgrade | Remove | Purge

  const ListFields: seq<ListField> := [Install, Reinstall, Upgrade, Remove, Purge]

  function Get(log: LogJSON, f: ListField): seq<PackageInfo> {
    match f
    case Install => log.install
    case Reinstall => log.reinstall
    case Upgrade => log.upgrade
    case Remove => log.remove
    case Purge => log.purge
  }

  /** The XOperation flag that belongs to list field `f`. */
  function Flag(log: LogJSON, f: ListField): bool {
    match f
    case Install => log.installOperation
    case Reinstall => log.reinstallOperation
    case Upgrade => log.upgradeOperation
    case Remove => log.removeOperation
    case Purge => log.purgeOperation
  }

  /** The record with list field `f` replaced by `v`; nothing else changes. */
  function Set(log: LogJSON, f: ListField, v: seq<PackageInfo>): (r: LogJSON)
    ensures Get(r, f) == v
    ensures forall g :: g != f ==> Get(r, g) == Get(log, g)
    ensures Strip(r) == Strip(log)
  {
    match f
    case Install => log.(install := v)
    case Reinstall => log.(reinstall := v)
    case Upgrade => log.(upgrade := v)
    case Remove => log.(remove := v)
    case Purge => log.(purge := v)
  }

  /** The record with every package list emptied: its non-list fields. */
  function Strip(log: LogJSON): (r: LogJSON)
    ensures forall g :: Get(r, g) == []
  {
    log.(install := [], reinstall := [], upgrade := [], remove := [], purge := [])
  }

  lemma AppendAssoc<T>(a: seq<T>, b: seq<T>, c: seq<T>)
    ensures a + (b + c) == a + b + c
  {
  }

  /** The elements of a non-empty sequence are those of its prefix and its
      last one. */
  lemma InitLast<T>(s: seq<T>)
    requires s != []
    ensures forall x :: x in s <==> x in s[..|s| - 1] || x == s[|s| - 1]
  {
    assert s == s[..|s| - 1] + [s[|s| - 1]];
  }

  lemma StripStrip(log: LogJSON)
    ensures Strip(Strip(log)) == Strip(log)
  {
  }

  lemma StripEq(a: LogJSON, b: LogJSON)
    requires Strip(a) == Strip(b)
    requires forall f :: Get(a, f) == Get(b, f)
    ensures a == b
  {
    assert Get(a, Install) == Get(b, Install);
    assert Get(a, Reinstall) == Get(b, Reinstall);
    assert Get(a, Upgrade) == Get(b, Upgrade);
    assert Get(a, Remove) == Get(b, Remove);
    assert Get(a, Purge) == Get(b, Purge);
  }
}
