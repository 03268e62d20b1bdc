/** Identifiers, abstract clock values and the optional-value wrapper shared by every table. */
module Basics {

  /** A nullable column or a lookup that may find nothing. */
  datatype Option<+T> = None | Some(value: T) {
    /** The value, or `default` when the column is null (PHP's `??`). */
    function GetOr(default: T): T {
      match this
      case Some(v) => v
      case None => default
    }
  }

  /** Primary keys of the tables (auto-increment ids; their sign plays no part). */
  type MemberId = int
  type RoomId = int
  type QuestionId = int
  type CategoryId = int

  /** An abstract timestamp (what `now()` returned); only set / null matters to the model. */
  type Clock = int
}
