/**
 * The errors the credential client can return, as kinds rather than message strings.
 * Where the message of the Go code depends on a value (the registry it was asked for,
 * the endpoint it rejected, the service's own error), the kind carries that value.
 */
module Errors {

  /** Why the call to the ECR GetAuthorizationToken operation did not give an output. */
  datatype FetchFailure =
    | ServiceError(message: string)             // the SDK call returned an error
    | MissingAuthorizationData(registryID: string)  // no error, but a nil output ("" = default registry)

  datatype Error =
    | NotECRHost                                // the host does not match the ECR pattern
    | MalformedECRHost(serverURL: string)       // a match with fewer than three submatches
    | InvalidTokenEncoding                      // the token is not base64
    | InvalidTokenFormat                        // the decoded token has no ':'
    | FailedToGetToken(cause: FetchFailure)     // the remote call failed (wrapped error)
    | InvalidProxyEndpoint(proxyEndpoint: string)   // the returned endpoint is not an ECR host
    | NoAuthorizationToken(registryID: string)  // no usable AuthorizationData element ("" = default registry)
}
