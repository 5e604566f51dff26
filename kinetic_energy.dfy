/** `calculate_kinetic_energy`: KE = 0.5 * m * v^2, over real numbers. */
module KineticEnergy {

  function KineticEnergy(mass: real, velocity: real): (energy: real)
    ensures velocity == 0.0 ==> energy == 0.0
    ensures mass >= 0.0 ==> energy >= 0.0
  {
    0.5 * mass * (velocity * velocity)
  }

  /** The direction of motion does not matter. */
  lemma KineticEnergyEven(mass: real, velocity: real)
    ensures KineticEnergy(mass, -velocity) == KineticEnergy(mass, velocity)
  {
  }

  /** Energy is additive in the mass. */
  lemma KineticEnergyAdditive(m1: real, m2: real, velocity: real)
    ensures KineticEnergy(m1 + m2, velocity) == KineticEnergy(m1, velocity) + KineticEnergy(m2, velocity)
  {
  }
}
