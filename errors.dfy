/** Failure values shared by the whole model.

    The backend signals failures by raising exceptions (HTTPException subclasses,
    ValueError, SQLAlchemy's IntegrityError).  Here every operation that can fail
    returns a `Result`, and the exception becomes an `Error` value naming the
    condition and the data the exception carries. */
module Errors {

  datatype Option<+T> = None | Some(value: T)

  datatype Error =
    /** DuplicateSubjectIDException(*ids): the repeated ids, in first-occurrence order */
    | DuplicateSubjectId(ids: seq<int>)
    /** InvalidSubjectIDException(*ids): requested ids missing from the Subject table */
    | InvalidSubjectId(unknown: set<int>)
    /** DuplicateTeacherException(name): "last first patronymic" of the clashing teacher */
    | DuplicateTeacher(name: string)
    /** DuplicateStudentGroupException(name) */
    | DuplicateStudentGroup(name: string)
    /** DuplicateSubjectNameException(name) */
    | DuplicateSubjectName(name: string)
    /** NotFoundException(entity, id) */
    | NotFound(entity: string, id: int)
    /** RequestDataMissingException */
    | RequestDataMissing
    /** DatabaseConnectionError: the validator found no session argument */
    | DatabaseConnection
    /** InvalidLoadStrategyException(strategy, allowed) */
    | InvalidLoadStrategy(strategy: string)
    /** ValueError raised by the code itself */
    | ValueError(message: string)
    /** TypeError raised by the constructor of the named mapped class for an unknown keyword */
    | TypeError(model: string)
    /** AttributeError: reading an attribute the object does not have */
    | AttributeError(attribute: string)
    /** SQLAlchemy's MissingGreenlet: reading a relationship that was not loaded
        triggers a lazy load, which an AsyncSession cannot run implicitly */
    | MissingGreenlet(attribute: string)
    /** the error SQLAlchemy raises when ORDER BY is given a class attribute that is
        not a column (a Python property, the class's `metadata` or `registry`) */
    | NotAColumn(name: string)
    /** a primary-key, unique or foreign-key violation reported by the database */
    | IntegrityError
    /** HTTPException(status_code=400) raised for an invalid CORS setting */
    | InvalidCors

  datatype Result<+T> = Ok(value: T) | Err(error: Error)
}
