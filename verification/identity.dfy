/** The command sender as the dispatchers see it: only its permission test matters. */
module Identity {
  import opened Wrappers

  /** `SommandSource`: `hasPermission` stands for `sender.hasPermission`. */
  datatype Source = Source(hasPermission: string -> bool)

  /** `passesPermission`: a missing permission is open to everyone; any other permission,
      a blank one included, must be held. */
  predicate Passes(src: Source, permission: Option<string>) {
    permission.None? || src.hasPermission(permission.value)
  }
}
