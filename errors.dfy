/** The exceptions the core throws or lets through to the Express error handler. */
module Errors {

  /** Why the token library refused a token (`jwt.verify` throws one of these). */
  datatype AuthFailure = Malformed | BadSignature | Expired

  datatype Error =
    | ConfigError(message: string)   // a secret is missing or malformed
    | CipherError(message: string)   // Node's crypto refused the IV or the ciphertext
    | AuthError(failure: AuthFailure)
    | TypeError(message: string)     // a JavaScript TypeError, e.g. encrypting `undefined`
    | CastError                      // a string Mongoose cannot cast to an ObjectId
    | SchemaError(message: string)   // a Mongoose schema validation failure on create or save
    | DuplicateKey                   // MongoDB's unique `_id` index refused an insert
    | BadSkip                        // MongoDB refuses a negative `skip`

  const AesSecretMissing := "AES_SECRET is not configured"
  const AesSecretLength := "AES_SECRET must be 32 characters long for AES-256"
  const JwtSecretMissing := "JWT_SECRET is not configured"
  const InvalidIv := "Invalid initialization vector"
  const BadDecrypt := "bad decrypt"
  const UndefinedData := "The \"data\" argument must be of type string or an instance of Buffer, TypedArray, or DataView. Received undefined"
}
