/** Which store a replica asks (src/utils/shared-store.ts:374-395): the installed backend, or its own
    memory. `useSharedBackend` raises the generation at every change. */
module Backends {
  import opened Wrappers

  datatype Store = Shared(backend: nat) | Local(replica: string)

  datatype Installed = Installed(backend: Option<nat>, generation: nat)
}
