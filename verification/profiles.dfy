/**
 * The one persisted entity of the `eco` CLI: a stored SSH connection profile,
 * and the answers the `add` command collects before it becomes one.
 */
module Profiles {

  /** The answers of the `add` prompts: everything a profile holds except its id. */
  datatype Draft = Draft(name: string, description: string, pemFilePath: string, ip: string)

  /** A stored profile, with the fields of the source's `Connection` interface. */
  datatype Connection = Connection(id: int, name: string, description: string, pemFilePath: string, ip: string)

  /** The record `add` builds from its answers once it has chosen an id. */
  function WithId(d: Draft, id: int): Connection
  {
    Connection(id, d.name, d.description, d.pemFilePath, d.ip)
  }
}
