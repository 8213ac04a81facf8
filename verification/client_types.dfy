/** The activity record as the browser client receives it: ids and dates
    are strings, and a date may be `null` or `undefined` (both `None`). The
    sent date is typed as a string but the server sends it nullable. */
module ClientTypes {
  import opened Wrappers

  datatype ClientActivity = ClientActivity(
    id: string,
    name: string,
    fromAddress: string,
    toEmailAddress: string,
    fromName: string,
    createdDate: string,
    bouncedDate: Option<string>,
    openedDate: Option<string>,
    sentDate: Option<string>)
}
