/** HTTP statuses that are reported as a refusal of the request (internal/contract/uxv1/errors.go). */
module Rejections {

  predicate HttpRejection(status: nat) {
    status == 400 || status == 401 || status == 403 || status == 404 || status == 409 || status == 422 || status == 429
  }
}
