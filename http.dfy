/** What a controller of the router API hands back to Express. */
module Http {

  /**
   * Either a JSON body `{success, message}` sent with `res.json`, or an error
   * thrown with a `statusCode` and a `message` and passed on with `next(error)`.
   */
  datatype Response = Json(success: bool, message: string) | Thrown(statusCode: nat, message: string)
}
