/**
 The Contact record, the link precedence enum, and the request and response
 shapes of the identify operation.
 */
module Contacts {
  import opened Wrappers

  datatype LinkPrecedence = Primary | Secondary

  /**
   One row of the Contact table. `createdAt` is a logical timestamp: a larger
   value means a later insertion. `deleted` stands for a non-null `deletedAt`;
   `updatedAt` carries no behaviour and is not represented.
   */
  datatype Contact = Contact(
    id: nat,
    phoneNumber: Option<string>,
    email: Option<string>,
    linkedId: Option<nat>,
    linkPrecedence: LinkPrecedence,
    createdAt: nat,
    deleted: bool)

  /** A contact that has not been soft-deleted. */
  predicate Active(c: Contact) {
    !c.deleted
  }

  /** JavaScript truthiness of an optional string: absent and "" are both falsy. */
  predicate Supplied(s: Option<string>) {
    s.Some? && s.value != ""
  }

  /** JavaScript truthiness of an optional id: absent and 0 are both falsy. */
  predicate LinkSet(l: Option<nat>) {
    l.Some? && l.value != 0
  }

  /** An error carrying the HTTP status the service chose for it. */
  datatype AppError = AppError(message: string, statusCode: nat)

  /** The `contact` object of the identify response. */
  datatype ContactSummary = ContactSummary(
    primaryContactId: nat,
    emails: seq<string>,
    phoneNumbers: seq<string>,
    secondaryContactIds: seq<nat>)

  datatype IdentifyResponse = IdentifyResponse(contact: ContactSummary)

  type Outcome = Result<IdentifyResponse, AppError>
}
