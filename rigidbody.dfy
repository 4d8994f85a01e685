/**
 * A point particle with a heading: Euler integration of position and heading, damping
 * by friction, and impulses. Mass and moment of inertia are fixed at construction.
 */
module Physics {
  import opened Vectors
  import opened Utils

  class Rigidbody {
    var position: Vec
    var headingRadians: real
    const mass: real
    var velocity: Vec
    const momentOfInertia: real
    var angularVelocity: real

    /** A body at rest at the given pose. */
    constructor (position: Vec, headingRadians: real, mass: real, momentOfInertia: real)
      ensures this.position == position && this.headingRadians == headingRadians
      ensures this.mass == mass && this.momentOfInertia == momentOfInertia
      ensures velocity == Zero && angularVelocity == 0.0
    {
      this.position := position;
      this.headingRadians := headingRadians;
      this.mass := mass;
      this.momentOfInertia := momentOfInertia;
      velocity := Zero;
      angularVelocity := 0.0;
    }

    method SetVelocity(velocity: Vec)
      modifies this`velocity
      ensures this.velocity == velocity
    {
      this.velocity := velocity;
    }

    method SetAngularVelocity(angularVelocity: real)
      modifies this`angularVelocity
      ensures this.angularVelocity == angularVelocity
    {
      this.angularVelocity := angularVelocity;
    }

    method SetPosition(position: Vec)
      modifies this`position
      ensures this.position == position
    {
      this.position := position;
    }

    /**
     * One Euler step of length dt: the position moves by the velocity times dt and the
     * heading by the angular velocity times dt, wrapped into (-pi, pi] when the wrap
     * does not saturate Java's cast; the velocities do not change.
     */
    method Update(dt: real)
      modifies this`position, this`headingRadians
      ensures position == old(position).Plus(old(velocity).Times(dt))
      ensures headingRadians == AngleModulusRadians(old(headingRadians) + old(angularVelocity) * dt)
      ensures CastFits(old(headingRadians) + old(angularVelocity) * dt, -Pi, Pi) ==> -Pi < headingRadians <= Pi
    {
      var heading := Wrapped(headingRadians + angularVelocity * dt);
      position := position.Plus(velocity.Times(dt));
      headingRadians := heading;
    }

    /** The angle wrapped into (-pi, pi], when the wrap does not saturate the cast. */
    static method Wrapped(angle: real) returns (wrapped: real)
      ensures wrapped == AngleModulusRadians(angle)
      ensures CastFits(angle, -Pi, Pi) ==> -Pi < wrapped <= Pi
    {
      if CastFits(angle, -Pi, Pi) {
        AngleModulusInRange(angle);
      }
      wrapped := AngleModulusRadians(angle);
    }

    /** Damping: both velocities are scaled by 1 - friction * dt; without friction nothing changes. */
    method ApplyFriction(friction: real, dt: real)
      modifies this`angularVelocity, this`velocity
      ensures angularVelocity == old(angularVelocity) * (1.0 - friction * dt)
      ensures velocity == old(velocity).Times(1.0 - friction * dt)
      ensures friction == 0.0 ==> angularVelocity == old(angularVelocity) && velocity == old(velocity)
    {
      angularVelocity := angularVelocity - friction * angularVelocity * dt;
      velocity := velocity.Plus(velocity.Times(-friction * dt));
      TimesDistributes(old(velocity), -friction * dt);
    }

    /**
     * An impulse over dt: the angular velocity gains torque / momentOfInertia * dt and the
     * velocity gains force * (dt / mass); with no force and no torque nothing changes.
     */
    method ApplyImpulse(force: Vec, torque: real, dt: real)
      requires mass != 0.0 && momentOfInertia != 0.0
      modifies this`angularVelocity, this`velocity
      ensures angularVelocity == old(angularVelocity) + torque / momentOfInertia * dt
      ensures velocity == old(velocity).Plus(force.Times(dt / mass))
      ensures force == Zero && torque == 0.0 ==> angularVelocity == old(angularVelocity) && velocity == old(velocity)
    {
      angularVelocity := angularVelocity + torque / momentOfInertia * dt;
      velocity := velocity.Plus(force.Times(dt / mass));
    }

    function GetHeadingRadians(): real
      reads this
    {
      headingRadians
    }

    /** The heading in degrees, a half turn being 180 degrees. */
    function GetHeadingDegrees(): (degrees: real)
      reads this
      ensures headingRadians == Pi ==> degrees == 180.0
    {
      headingRadians * (180.0 / Pi)
    }

    function GetVelocity(): Vec
      reads this
    {
      velocity
    }

    function GetPosition(): Vec
      reads this
    {
      position
    }
  }
}
