/** Values shared by the violation tracker of the drone monitor backend. */
module Records {

  /** An optional value; `None` plays the part of JavaScript's `null`. */
  datatype Option<+T> = None | Some(value: T)

  /** Operator details returned by the pilot endpoint. The endpoint returns
      further fields; they are carried along unchanged and not modelled. */
  datatype Pilot = Pilot(firstName: string, lastName: string, email: string, phoneNumber: string)

  /** One violation record `{serialNumber, timestamp, distToNest, pilot}`.
      `timestamp` is the snapshot time in milliseconds, `dist` the distance to
      the nest in hundredths of a metre (the record's `distToNest` string is its
      two-decimal rendering, `Distance.Fixed2(dist)`), and `pilot` is `None`
      where the source stores `null`. */
  datatype Violation = Violation(serialNumber: string, timestamp: int, dist: nat, pilot: Option<Pilot>)

  /** The trailing window: ten minutes, in milliseconds. */
  const WindowMillis: int := 10 * 60 * 1000

  /** Radius of the no-fly zone: 100 metres, in hundredths of a metre. */
  const NoFlyRadius: nat := 100 * 100
}
