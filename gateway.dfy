/**
 * The remote calls both pages make. Transport and payload handling are not
 * modelled: a request is recorded when it is posted, and its completion is a
 * separate step that only says whether the promise resolved or rejected.
 */
module Gateway {

  /** How a posted request finished. */
  datatype Outcome = Succeeded | Failed

  /** The login endpoints under the configured base URL. */
  datatype Endpoint = LoginWithEmail | LoginWithMobile
}
