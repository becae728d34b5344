/** A single point of the potential mesh: a voltage and the lock ("fixed" flag)
    that protects it. */
module Points {

  /** A point of electric potential. While `fixed` is set, the ordinary setter
      cannot change `voltage`; region-fixing writes through an
      unlock/set/relock bracket instead. */
  datatype PotentialPoint = PotentialPoint(voltage: real, fixed: bool)
  {
    /** The guarded setter: a write to a fixed point is silently ignored, a
        write to a free point replaces its voltage; the lock never moves. */
    function SetVoltage(v: real): (p: PotentialPoint)
      ensures p.fixed == fixed
      ensures fixed ==> p == this
      ensures !fixed ==> p.voltage == v
    {
      if fixed then this else PotentialPoint(v, fixed)
    }

    /** Sets the lock flag unconditionally; the voltage is untouched. */
    function SetFixed(b: bool): (p: PotentialPoint)
      ensures p.voltage == voltage && p.fixed == b
    {
      this.(fixed := b)
    }

    /** The unlock, set, relock bracket used by the region-fixing operations:
        whatever the point held before, fixed or not, it ends up fixed at `v`,
        so a later fix overrides an earlier one. */
    function Fix(v: real): (p: PotentialPoint)
      ensures p == PotentialPoint(v, true)
    {
      SetFixed(false).SetVoltage(v).SetFixed(true)
    }
  }

  /** A freshly allocated point: 0 V and free. */
  const FreshPoint := PotentialPoint(0.0, false)
}
