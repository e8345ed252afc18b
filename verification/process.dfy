/** The process the host loader works in. */
module HostProcess {
  import opened Words
  import opened GuestMemory
  import opened HostRelocation
  import opened GuardedRelocation

  /** The process the libraries live in: its memory, and its read-execute pages. */
  class Process {
    var mem: Mem
    var executable: set<int>
    const page: U64
    const host: Host

    /** What a store must not touch. */
    function Guarded(): Guard
      reads this
    {
      Guard(executable, page)
    }

    constructor (image: Mem, pageSize: U64, surroundings: Host)
      ensures mem == image && executable == {} && page == pageSize && host == surroundings
    {
      mem, executable, page, host := image, {}, pageSize, surroundings;
    }
  }
}
