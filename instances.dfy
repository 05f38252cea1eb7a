/**
 * The records of the program: the static configuration of one EC2 instance,
 * one row of the `describe-instances` answer, and the status shown for an
 * instance; and how a status is derived from a row.
 */
module Instances {
  import opened Wrappers

  /** `EC2InstanceConfig`: one configured instance. */
  datatype InstanceConfig = InstanceConfig(
    id: string,
    displayName: string,
    user: string,
    directory: Option<string>)

  /**
   * One row of the query answer: instance id, the `Name` tag (absent when the
   * instance has none), the state name, the public IP (absent when it has
   * none) and the launch time in whole seconds since the epoch.
   */
  datatype Row = Row(
    id: string,
    nameTag: Option<string>,
    state: string,
    publicIp: Option<string>,
    launchTime: int)

  /** `EC2InstanceStatus`: what is shown for one instance; `elapsed` is in seconds. */
  datatype InstanceStatus = InstanceStatus(
    config: InstanceConfig,
    id: string,
    name: string,
    state: string,
    publicIp: Option<string>,
    elapsed: Option<int>)

  /** The state name under which an instance counts as up. */
  const Running: string := "running"

  /** Python truthiness of an optional string: present and non-empty. */
  predicate Truthy(o: Option<string>)
  {
    o.Some? && o.value != ""
  }

  /**
   * The status built from one answer row of a configured instance, read at
   * time `now`.
   */
  function DeriveStatus(config: InstanceConfig, row: Row, now: int): (s: InstanceStatus)
    ensures s.config == config && s.id == row.id && s.state == row.state
    // an uptime is shown exactly for running instances, and it is the time since launch
    ensures s.elapsed.Some? <==> row.state == Running
    ensures s.elapsed.Some? ==> row.launchTime + s.elapsed.value == now
    // the Name tag wins unless it is missing or empty; then the configured display name
    ensures Truthy(row.nameTag) ==> s.name == row.nameTag.value
    ensures !Truthy(row.nameTag) ==> s.name == config.displayName
    // an address is kept only when one was reported, and never as an empty string
    ensures s.publicIp.Some? <==> Truthy(row.publicIp)
    ensures s.publicIp.Some? ==> s.publicIp == row.publicIp && Truthy(s.publicIp)
  {
    InstanceStatus(
      config := config,
      id := row.id,
      name := if Truthy(row.nameTag) then row.nameTag.value else config.displayName,
      state := row.state,
      publicIp := if Truthy(row.publicIp) then row.publicIp else None,
      elapsed := if row.state == Running then Some(now - row.launchTime) else None)
  }
}
