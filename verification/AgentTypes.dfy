/** What the two agent tables of the kernel, in kernel/core/agent.c and kernel/core/kernel.c, have in common. */
module AgentTypes {
  import opened Words

  const MAX_AGENTS := 256

  datatype AgentState = Idle | Ready | Running | Blocked | Terminated

  /** A full time slice, computed in 32 bits. */
  function Slice(priority: u32): u32 {
    Wrap32(priority * 10)
  }
}
