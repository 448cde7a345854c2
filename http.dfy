/** The request/response vocabulary of the Express handlers: the errors they
    hand to `next`, what they send, and the request object the basic-auth
    middleware and the register handler write to. */
module Http {
  import opened Common

  /** An error handed to `next(err)`. */
  datatype Error =
    | Http(status: nat, message: string)  // createError(status, message)
    | Validation(paths: set<string>)      // Mongoose ValidationError naming the failed required paths
    | DuplicateKey                        // MongoDB E11000 on a unique index
    | Fault(description: string)          // an error raised by a collaborator (database, bcrypt, S3) and passed on unchanged
    | TypeErrorThrown(description: string) // a JavaScript TypeError from reading a property of null

  /** What a route handler ends with: a response it sends itself, or an error
      passed to the error middleware. */
  datatype Response<+B> = Sent(status: nat, body: B) | Next(err: Error)

  /** The outcome of a middleware: `next()` or `next(err)`. */
  datatype Signal = Proceed | Reject(err: Error)

  /** `req.auth` as the basic-auth middleware builds it. `password` is absent
      when the decoded text holds no colon (`authArray[1]` is undefined). */
  datatype Credentials = Credentials(username: string, password: Option<string>)

  /** The parts of an Express request that the modelled handlers read and write. */
  class Request {
    /** `req.headers.authorization` */
    var authorization: Option<string>
    /** `req.auth`, attached by the basic-auth middleware */
    var auth: Option<Credentials>
    /** `req.body` after JSON parsing, as a map from keys to string values */
    var body: map<string, string>

    constructor (authorization: Option<string>, body: map<string, string>)
      ensures this.authorization == authorization && this.body == body && auth == None
    {
      this.authorization := authorization;
      this.body := body;
      auth := None;
    }
  }
}
