/** What a server action hands back to its caller. */
module Actions {

  /**
   * `Threw(message)`: the action throws an `Error`; `Failed(error)`: it
   * returns `{ error }`; `Redirected(path)`: it calls `redirect(path)`;
   * `Succeeded`: it returns `{ success: true }` or `{}`.
   */
  datatype ActionResult = Threw(message: string) | Failed(error: string) | Redirected(path: string) | Succeeded

  const Unauthorized: string := "Unauthorized"
}
