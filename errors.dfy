/** The exceptions the services throw, by the HTTP answer Nest gives for each. */
module Errors {

  datatype Exception =
    | BadRequest(message: string)          // BadRequestException: 400
    | NotFound(message: string)            // NotFoundException: 404
    | InternalServerError(message: string) // InternalServerErrorException: 500
    | Other(message: string)               // a plain Error, a TypeError or a database error: 500

  /** What a write that breaks a primary key or a unique column fails with. */
  const DuplicateEntry: Exception := Other("ER_DUP_ENTRY")

  /** What a delete of a row that another table's foreign key still references fails with. */
  const RowIsReferenced: Exception := Other("ER_ROW_IS_REFERENCED_2")

  /** What TypeORM's update throws when the values name a property the entity has no column for. */
  const EntityPropertyNotFound: Exception := Other("EntityPropertyNotFoundError")

  /** What reading a property of `undefined` or `null`, or calling a missing method, throws. */
  const TypeError: Exception := Other("TypeError")
}
