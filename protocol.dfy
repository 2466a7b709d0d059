// Requests and replies of the daemon's line protocol, as values rather than
// text: a request is a command code with one numeric argument, a reply is the
// tuple one of the handlers writes into the output buffer.

module Protocol {

  const GetEnergyCmd: int := 1
  const GetPwrLimitCmd: int := 2
  const SetPwrLimitCmd: int := 3

  /** A decoded request line: the command code and the argument that only
      the set-power-limit command uses. */
  datatype Request = Request(command: int, argument: real)

  /** The content of the output buffer when it is sent. `Blank` is the buffer
      as the dispatcher pre-fills it with spaces, sent unchanged when a
      handler writes nothing into it. */
  datatype Reply =
    | Blank
    | EnergyReply(totalEnergy: real, elapsedTime: real, err: int)
    | LimitReply(watts: real, err: int)
}
