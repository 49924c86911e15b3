/** Values shared by the server store and the client list view. */
module Records {

  datatype Option<+T> = None | Some(value: T)

  /** A key into the public image disk, as returned by Storage's `store`. */
  type Path = string

  /** One row of the `resources` table as `Resource::all()` hands it to the
      page (timestamps are not modelled). `kind` is the `type` column. */
  datatype Resource = Resource(
    id: nat,
    name: string,
    kind: string,
    description: Option<string>,
    images: Option<Path>)
}
