/** The JSON reply of the `/predict` endpoint, as both ends of the application see it. */
module Wire {
  import opened Wrappers

  /**
   * The keys of the reply object that either end reads. A key the reply does not carry is
   * `None`: a success reply has `success` and `mask`, an error reply only `error`.
   */
  datatype Body = Body(success: Option<bool>, mask: Option<string>, error: Option<string>)
}
