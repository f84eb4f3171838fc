/** The record shared by the session controller and the history drawer. */
module Types {

  /** One visited page: a time-derived id, the absolute URL, the ISO-8601
      time of the visit and the page's host name as its title. */
  datatype HistoryItem = HistoryItem(id: string, url: string, timestamp: string, title: string)
}
